/** The trace section of the sidebar (app.py:182-239). The agent's trace is a
    dictionary from trace type to a list of trace events. Within one trace
    type the events are grouped into steps by trace id, the way the Bedrock
    console shows them; the steps of all phases are then numbered by one
    counter, `step_num`.

    A trace event is a JSON object; its members are either strings or
    objects with string members, which is all the grouping looks at. */
module Trace {
  import opened Common

  datatype Field = Text(s: string) | Record(members: map<string, string>)

  type TraceEvent = map<string, Field>

  /** `response["trace"]`: trace type to the events of that type. */
  type TracePayload = map<string, seq<TraceEvent>>

  // ---------------------------------------------------------------------
  // The two tables of render_trace_section (app.py:184-194)
  // ---------------------------------------------------------------------

  datatype Phase = Phase(header: string, traceTypes: seq<string>)

  /** `trace_types_map`, in its declared order. */
  const TraceTypesMap: seq<Phase> := [
    Phase("Pre-Processing", ["preGuardrailTrace", "preProcessingTrace"]),
    Phase("Orchestration", ["orchestrationTrace"]),
    Phase("Post-Processing", ["postProcessingTrace", "postGuardrailTrace"])
  ]

  const PreProcessingInfo: seq<string> := ["modelInvocationInput", "modelInvocationOutput"]
  const OrchestrationInfo: seq<string> :=
    ["invocationInput", "modelInvocationInput", "modelInvocationOutput", "observation", "rationale"]
  const PostProcessingInfo: seq<string> := ["modelInvocationInput", "modelInvocationOutput", "observation"]

  /** `trace_info_types_map`: the info keys of a trace type, in declared
      order; the guardrail types have none. */
  function InfoTypes(traceType: string): Option<seq<string>> {
    match traceType
    case "preProcessingTrace" => Some(PreProcessingInfo)
    case "orchestrationTrace" => Some(OrchestrationInfo)
    case "postProcessingTrace" => Some(PostProcessingInfo)
    case _ => None
  }

  // ---------------------------------------------------------------------
  // The id of one event (app.py:213-224)
  // ---------------------------------------------------------------------

  /** Position of the first info key, in declared order, that the event has:
      the `for ... if trace_info_type in trace: ... break` loop. */
  function FirstPresent(ev: TraceEvent, keys: seq<string>): (r: Option<nat>)
    ensures r.Some? ==> r.value < |keys| && keys[r.value] in ev
    ensures r.Some? ==> forall j :: 0 <= j < r.value ==> keys[j] !in ev
    ensures r.None? ==> forall j :: 0 <= j < |keys| ==> keys[j] !in ev
    decreases |keys|
  {
    if |keys| == 0 then None
    else if keys[0] in ev then Some(0)
    else
      match FirstPresent(ev, keys[1..])
      case None => None
      case Some(k) => Some(k + 1)
  }

  /** `trace[trace_info_type]["traceId"]`: a string member raises `TypeError`,
      an object without `traceId` raises `KeyError`. */
  function InfoId(f: Field): Result<string> {
    match f
    case Record(m) => if "traceId" in m then Ok(m["traceId"]) else Fail(KeyError("traceId"))
    case Text(_) => Fail(TypeError)
  }

  /** `trace["traceId"]` used as a dictionary key: an object there is unhashable. */
  function GuardrailId(ev: TraceEvent): Result<string> {
    if "traceId" !in ev then Fail(KeyError("traceId"))
    else
      match ev["traceId"]
      case Text(s) => Ok(s)
      case Record(_) => Fail(TypeError)
  }

  /** The id under which an event is grouped; `None` when it matches no info
      key and is dropped. */
  function EventKey(ev: TraceEvent, traceType: string): Result<Option<string>> {
    match InfoTypes(traceType)
    case Some(keys) =>
      (match FirstPresent(ev, keys)
       case None => Ok(None)
       case Some(k) =>
         match InfoId(ev[keys[k]])
         case Ok(id) => Ok(Some(id))
         case Fail(c) => Fail(c))
    case None =>
      match GuardrailId(ev)
      case Ok(id) => Ok(Some(id))
      case Fail(c) => Fail(c)
  }

  // ---------------------------------------------------------------------
  // `trace_steps`: an insertion-ordered dictionary from id to items
  // ---------------------------------------------------------------------

  /** What a step shows: the event itself, or for a guardrail type the event
      wrapped as `{trace_type: trace}`. */
  datatype Item = Event(ev: TraceEvent) | Wrapped(traceType: string, ev: TraceEvent)

  datatype Group = Group(id: string, items: seq<Item>)

  function Ids(gs: seq<Group>): (ids: seq<string>)
    ensures |ids| == |gs| && forall p :: 0 <= p < |gs| ==> ids[p] == gs[p].id
  {
    seq(|gs|, p requires 0 <= p < |gs| => gs[p].id)
  }

  /** Where `id` is in the dictionary. */
  function Find(gs: seq<Group>, id: string): (r: Option<nat>)
    ensures r.Some? ==> r.value < |gs| && gs[r.value].id == id
    ensures r.None? <==> id !in Ids(gs)
    decreases |gs|
  {
    if |gs| == 0 then None
    else if gs[0].id == id then Some(0)
    else
      var rest := Find(gs[1..], id);
      IdsCons(gs);
      match rest
      case None => None
      case Some(p) =>
        assert gs[1..][p] == gs[p + 1];
        Some(p + 1)
  }

  lemma IdsCons(gs: seq<Group>)
    requires |gs| > 0
    ensures Ids(gs) == [gs[0].id] + Ids(gs[1..])
  {
  }

  /** `if trace_id not in trace_steps: trace_steps[trace_id] = [trace]
      else: trace_steps[trace_id].append(trace)`. */
  function AppendTo(gs: seq<Group>, id: string, item: Item): seq<Group> {
    match Find(gs, id)
    case Some(p) => gs[p := Group(id, gs[p].items + [item])]
    case None => gs + [Group(id, [item])]
  }

  /** `trace_steps[trace_id] = items`: an existing key keeps its place. */
  function Assign(gs: seq<Group>, id: string, items: seq<Item>): seq<Group> {
    match Find(gs, id)
    case Some(p) => gs[p := Group(id, items)]
    case None => gs + [Group(id, items)]
  }

  /** One pass of the loop body for one event. */
  function AddEvent(gs: seq<Group>, ev: TraceEvent, traceType: string): Result<seq<Group>> {
    match EventKey(ev, traceType)
    case Fail(c) => Fail(c)
    case Ok(None) => Ok(gs)
    case Ok(Some(id)) =>
      if InfoTypes(traceType).Some? then Ok(AppendTo(gs, id, Event(ev)))
      else Ok(Assign(gs, id, [Wrapped(traceType, ev)]))
  }

  /** `trace_steps` after the loop over the events of one trace type. */
  function Grouped(events: seq<TraceEvent>, traceType: string): Result<seq<Group>>
    decreases |events|
  {
    if |events| == 0 then Ok([])
    else
      match Grouped(events[..|events| - 1], traceType)
      case Fail(c) => Fail(c)
      case Ok(gs) => AddEvent(gs, events[|events| - 1], traceType)
  }

  // ---------------------------------------------------------------------
  // Reference definitions of what the grouping keeps
  // ---------------------------------------------------------------------

  /** The ids of the events that are kept, in event order. */
  function KeptIds(events: seq<TraceEvent>, traceType: string): seq<string>
    decreases |events|
  {
    if |events| == 0 then []
    else
      var ev := events[|events| - 1];
      var k := EventKey(ev, traceType);
      KeptIds(events[..|events| - 1], traceType) + (if k.Ok? && k.value.Some? then [k.value.value] else [])
  }

  /** Each value once, at its first occurrence. */
  function FirstSeen(s: seq<string>): seq<string>
    decreases |s|
  {
    if |s| == 0 then []
    else
      var d := FirstSeen(s[..|s| - 1]);
      if s[|s| - 1] in d then d else d + [s[|s| - 1]]
  }

  /** The events grouped under `id`, in event order. */
  function WithId(events: seq<TraceEvent>, traceType: string, id: string): seq<TraceEvent>
    decreases |events|
  {
    if |events| == 0 then []
    else
      var ev := events[|events| - 1];
      WithId(events[..|events| - 1], traceType, id) + (if EventKey(ev, traceType) == Ok(Some(id)) then [ev] else [])
  }

  /** What the step of an id shows, given the events with that id: all of
      them for a type with info keys, the last one wrapped for a guardrail type. */
  function Shown(m: seq<TraceEvent>, traceType: string): seq<Item> {
    if InfoTypes(traceType).Some? then seq(|m|, k requires 0 <= k < |m| => Event(m[k]))
    else if |m| == 0 then []
    else [Wrapped(traceType, m[|m| - 1])]
  }

  // ---------------------------------------------------------------------
  // The dictionary laws of `trace_steps`
  // ---------------------------------------------------------------------

  /** `trace_steps.get(id, [])`. */
  function ItemsOf(gs: seq<Group>, id: string): seq<Item> {
    match Find(gs, id)
    case Some(p) => gs[p].items
    case None => []
  }

  /** The search only looks at the ids. */
  lemma {:induction false} FindByIds(a: seq<Group>, b: seq<Group>, x: string)
    requires Ids(a) == Ids(b)
    ensures Find(a, x) == Find(b, x)
    decreases |a|
  {
    if |a| > 0 {
      assert Ids(a[1..]) == Ids(a)[1..] && Ids(b[1..]) == Ids(b)[1..];
      assert a[0].id == Ids(a)[0] == Ids(b)[0] == b[0].id;
      FindByIds(a[1..], b[1..], x);
    }
  }

  /** A new last entry is found only when no earlier entry has its id. */
  lemma {:induction false} FindSnoc(gs: seq<Group>, g: Group, x: string)
    ensures Find(gs + [g], x) == if x in Ids(gs) then Find(gs, x) else if g.id == x then Some(|gs|) else None
    decreases |gs|
  {
    var all := gs + [g];
    if |gs| == 0 {
      assert all == [g];
    } else {
      assert all[1..] == gs[1..] + [g];
      assert Ids(gs) == [gs[0].id] + Ids(gs[1..]);
      FindSnoc(gs[1..], g, x);
    }
  }

  /** Appending under `id` extends the list of `id` and leaves every other
      list alone; a new id goes last. */
  lemma AppendToLaw(gs: seq<Group>, id: string, item: Item, x: string)
    ensures Ids(AppendTo(gs, id, item)) == if id in Ids(gs) then Ids(gs) else Ids(gs) + [id]
    ensures ItemsOf(AppendTo(gs, id, item), x) == if x == id then ItemsOf(gs, id) + [item] else ItemsOf(gs, x)
  {
    var gs' := AppendTo(gs, id, item);
    match Find(gs, id)
    case Some(p) =>
      assert Ids(gs') == Ids(gs);
      FindByIds(gs', gs, x);
    case None =>
      assert Ids(gs') == Ids(gs) + [id];
      FindSnoc(gs, Group(id, [item]), x);
  }

  /** Assigning under `id` replaces the list of `id` and leaves every other
      list alone; a new id goes last, an existing one keeps its place. */
  lemma AssignLaw(gs: seq<Group>, id: string, items: seq<Item>, x: string)
    ensures Ids(Assign(gs, id, items)) == if id in Ids(gs) then Ids(gs) else Ids(gs) + [id]
    ensures ItemsOf(Assign(gs, id, items), x) == if x == id then items else ItemsOf(gs, x)
  {
    var gs' := Assign(gs, id, items);
    match Find(gs, id)
    case Some(p) =>
      assert Ids(gs') == Ids(gs);
      FindByIds(gs', gs, x);
    case None =>
      assert Ids(gs') == Ids(gs) + [id];
      FindSnoc(gs, Group(id, items), x);
  }

  /** With distinct ids every entry is the one found for its id. */
  lemma {:induction false} FindDistinct(gs: seq<Group>, p: nat)
    requires p < |gs|
    requires forall a, b :: 0 <= a < b < |gs| ==> gs[a].id != gs[b].id
    ensures Find(gs, gs[p].id) == Some(p)
    decreases |gs|
  {
    if p > 0 {
      assert gs[1..][p - 1] == gs[p];
      FindDistinct(gs[1..], p - 1);
    }
  }

  // ---------------------------------------------------------------------
  // The grouping, proved
  // ---------------------------------------------------------------------

  lemma FirstSeenMembers(s: seq<string>)
    ensures forall x :: x in FirstSeen(s) <==> x in s
    decreases |s|
  {
    if |s| > 0 {
      FirstSeenMembers(s[..|s| - 1]);
      assert s == s[..|s| - 1] + [s[|s| - 1]];
    }
  }

  lemma {:induction false} FirstSeenDistinct(s: seq<string>)
    ensures forall p, q :: 0 <= p < q < |FirstSeen(s)| ==> FirstSeen(s)[p] != FirstSeen(s)[q]
    decreases |s|
  {
    if |s| > 0 {
      FirstSeenDistinct(s[..|s| - 1]);
    }
  }

  /** An id with some event is a kept id. */
  lemma {:induction false} WithIdKept(events: seq<TraceEvent>, traceType: string, id: string)
    requires |WithId(events, traceType, id)| > 0
    ensures id in KeptIds(events, traceType)
    decreases |events|
  {
    var n := |events| - 1;
    if EventKey(events[n], traceType) != Ok(Some(id)) {
      WithIdKept(events[..n], traceType, id);
    }
  }

  /** The grouping fails exactly when the id of some event cannot be read. */
  lemma {:induction false} GroupedFailsIff(events: seq<TraceEvent>, traceType: string)
    ensures Grouped(events, traceType).Fail? <==> exists i :: 0 <= i < |events| && EventKey(events[i], traceType).Fail?
    decreases |events|
  {
    if |events| > 0 {
      GroupedFailsIff(events[..|events| - 1], traceType);
      GroupedFailsSnoc(events, traceType);
      KeyFailsSnoc(events, traceType);
    }
  }

  lemma GroupedFailsSnoc(events: seq<TraceEvent>, traceType: string)
    requires |events| > 0
    ensures Grouped(events, traceType).Fail?
        <==> Grouped(events[..|events| - 1], traceType).Fail? || EventKey(events[|events| - 1], traceType).Fail?
  {
  }

  lemma KeyFailsSnoc(events: seq<TraceEvent>, traceType: string)
    requires |events| > 0
    ensures var n := |events| - 1;
      (exists i :: 0 <= i < |events| && EventKey(events[i], traceType).Fail?)
      <==> (exists i :: 0 <= i < n && EventKey(events[..n][i], traceType).Fail?) || EventKey(events[n], traceType).Fail?
  {
    var n := |events| - 1;
    if exists i :: 0 <= i < |events| && EventKey(events[i], traceType).Fail? {
      var i :| 0 <= i < |events| && EventKey(events[i], traceType).Fail?;
      KeyFailsIn(events, traceType, i);
    }
    if exists i :: 0 <= i < n && EventKey(events[..n][i], traceType).Fail? {
      var i :| 0 <= i < n && EventKey(events[..n][i], traceType).Fail?;
      KeyFailsIn(events, traceType, i);
    }
  }

  lemma KeyFailsIn(events: seq<TraceEvent>, traceType: string, i: nat)
    requires i < |events|
    ensures var n := |events| - 1;
      i < n ==> events[..n][i] == events[i]
  {
  }

  lemma ShownSnoc(m: seq<TraceEvent>, ev: TraceEvent, traceType: string)
    ensures Shown(m + [ev], traceType)
         == if InfoTypes(traceType).Some? then Shown(m, traceType) + [Event(ev)] else [Wrapped(traceType, ev)]
  {
    if InfoTypes(traceType).Some? {
      assert Shown(m + [ev], traceType) == Shown(m, traceType) + [Event(ev)];
    }
  }

  /** The dictionary after the loop, as a map from id to list: its ids are
      the kept ids in first-seen order (app.py:218-219, 225), and the list of
      an id shows the events with that id (app.py:219-221, 225-229). */
  lemma {:induction false} GroupedMeaning(events: seq<TraceEvent>, traceType: string)
    requires Grouped(events, traceType).Ok?
    ensures var gs := Grouped(events, traceType).value;
      && Ids(gs) == FirstSeen(KeptIds(events, traceType))
      && forall x :: ItemsOf(gs, x) == Shown(WithId(events, traceType, x), traceType)
    decreases |events|
  {
    if |events| > 0 {
      GroupedMeaning(events[..|events| - 1], traceType);
      GroupedMeaningStep(events, traceType);
    }
  }

  lemma GroupedMeaningStep(events: seq<TraceEvent>, traceType: string)
    requires |events| > 0 && Grouped(events, traceType).Ok?
    requires var gs := Grouped(events[..|events| - 1], traceType).value;
      && Ids(gs) == FirstSeen(KeptIds(events[..|events| - 1], traceType))
      && forall x :: ItemsOf(gs, x) == Shown(WithId(events[..|events| - 1], traceType, x), traceType)
    ensures var gs := Grouped(events, traceType).value;
      && Ids(gs) == FirstSeen(KeptIds(events, traceType))
      && forall x :: ItemsOf(gs, x) == Shown(WithId(events, traceType, x), traceType)
  {
    var init, ev := events[..|events| - 1], events[|events| - 1];
    assert init + [ev] == events;
    AddEventMeaning(init, ev, traceType, Grouped(init, traceType).value);
  }

  /** One event added to a dictionary that already means what it should. */
  lemma AddEventMeaning(init: seq<TraceEvent>, ev: TraceEvent, traceType: string, gs: seq<Group>)
    requires AddEvent(gs, ev, traceType).Ok?
    requires Ids(gs) == FirstSeen(KeptIds(init, traceType))
    requires forall x :: ItemsOf(gs, x) == Shown(WithId(init, traceType, x), traceType)
    ensures var gs' := AddEvent(gs, ev, traceType).value;
      && Ids(gs') == FirstSeen(KeptIds(init + [ev], traceType))
      && forall x :: ItemsOf(gs', x) == Shown(WithId(init + [ev], traceType, x), traceType)
  {
    KeptIdsSnoc(init, ev, traceType);
    forall x
      ensures WithId(init + [ev], traceType, x)
           == WithId(init, traceType, x) + (if EventKey(ev, traceType) == Ok(Some(x)) then [ev] else [])
    {
      WithIdSnoc(init, ev, traceType, x);
    }
    match EventKey(ev, traceType)
    case Ok(None) =>
      assert AddEvent(gs, ev, traceType) == Ok(gs);
      assert KeptIds(init + [ev], traceType) == KeptIds(init, traceType) + [];
      assert KeptIds(init, traceType) + [] == KeptIds(init, traceType);
      forall x
        ensures WithId(init + [ev], traceType, x) == WithId(init, traceType, x)
      {
        assert WithId(init, traceType, x) + [] == WithId(init, traceType, x);
      }
    case Ok(Some(id)) =>
      KeptMeaning(init, ev, traceType, gs, id);
  }

  lemma KeptIdsSnoc(init: seq<TraceEvent>, ev: TraceEvent, traceType: string)
    ensures var k := EventKey(ev, traceType);
      KeptIds(init + [ev], traceType) == KeptIds(init, traceType) + (if k.Ok? && k.value.Some? then [k.value.value] else [])
  {
    assert (init + [ev])[..|init|] == init;
  }

  lemma WithIdSnoc(init: seq<TraceEvent>, ev: TraceEvent, traceType: string, x: string)
    ensures WithId(init + [ev], traceType, x)
         == WithId(init, traceType, x) + (if EventKey(ev, traceType) == Ok(Some(x)) then [ev] else [])
  {
    assert (init + [ev])[..|init|] == init;
  }

  /** An event kept under `id`: its list grows (or is replaced), the others stay. */
  lemma KeptMeaning(init: seq<TraceEvent>, ev: TraceEvent, traceType: string, gs: seq<Group>, id: string)
    requires EventKey(ev, traceType) == Ok(Some(id))
    requires Ids(gs) == FirstSeen(KeptIds(init, traceType))
    requires forall x :: ItemsOf(gs, x) == Shown(WithId(init, traceType, x), traceType)
    requires KeptIds(init + [ev], traceType) == KeptIds(init, traceType) + [id]
    requires forall x :: WithId(init + [ev], traceType, x) == WithId(init, traceType, x) + (if x == id then [ev] else [])
    ensures var gs' := if InfoTypes(traceType).Some? then AppendTo(gs, id, Event(ev)) else Assign(gs, id, [Wrapped(traceType, ev)]);
      && Ids(gs') == FirstSeen(KeptIds(init + [ev], traceType))
      && forall x :: ItemsOf(gs', x) == Shown(WithId(init + [ev], traceType, x), traceType)
  {
    var kept := KeptIds(init, traceType);
    FirstSeenMembers(kept);
    assert (kept + [id])[..|kept|] == kept;
    var info := InfoTypes(traceType).Some?;
    var item := if info then Event(ev) else Wrapped(traceType, ev);
    var gs' := if info then AppendTo(gs, id, item) else Assign(gs, id, [item]);
    forall x
      ensures ItemsOf(gs', x) == Shown(WithId(init + [ev], traceType, x), traceType)
    {
      if info {
        AppendToLaw(gs, id, item, x);
      } else {
        AssignLaw(gs, id, [item], x);
      }
      var m := WithId(init, traceType, x);
      if x == id {
        ShownSnoc(m, ev, traceType);
        assert WithId(init + [ev], traceType, x) == m + [ev];
        if info {
          assert ItemsOf(gs', x) == ItemsOf(gs, x) + [item];
        } else {
          assert ItemsOf(gs', x) == [item];
        }
      } else {
        assert WithId(init + [ev], traceType, x) == m + [];
        assert m + [] == m;
        assert ItemsOf(gs', x) == ItemsOf(gs, x);
      }
    }
    if info {
      AppendToLaw(gs, id, item, id);
    } else {
      AssignLaw(gs, id, [item], id);
    }
  }

  /** Each step of a trace type: one per distinct id, holding what the
      events with its id show. */
  lemma GroupedSteps(events: seq<TraceEvent>, traceType: string)
    requires Grouped(events, traceType).Ok?
    ensures var gs := Grouped(events, traceType).value;
      && (forall p, q :: 0 <= p < q < |gs| ==> gs[p].id != gs[q].id)
      && (forall p :: 0 <= p < |gs| ==> gs[p].items == Shown(WithId(events, traceType, gs[p].id), traceType))
  {
    var gs := Grouped(events, traceType).value;
    GroupedMeaning(events, traceType);
    FirstSeenDistinct(KeptIds(events, traceType));
    forall p | 0 <= p < |gs|
      ensures gs[p].items == Shown(WithId(events, traceType, gs[p].id), traceType)
    {
      FindDistinct(gs, p);
    }
  }

  /** An event that matches no info key leaves the steps as they were. */
  lemma DroppedEvent(events: seq<TraceEvent>, ev: TraceEvent, traceType: string, keys: seq<string>)
    requires InfoTypes(traceType) == Some(keys)
    requires forall j :: 0 <= j < |keys| ==> keys[j] !in ev
    ensures Grouped(events + [ev], traceType) == Grouped(events, traceType)
  {
    assert (events + [ev])[..|events|] == events;
    assert FirstPresent(ev, keys).None?;
  }

  // ---------------------------------------------------------------------
  // The grouping loop (app.py:209-229)
  // ---------------------------------------------------------------------

  /** The inner `for trace_info_type in trace_info_types` loop with its `break`. */
  method FindInfoKey(ev: TraceEvent, keys: seq<string>) returns (r: Option<nat>)
    ensures r == FirstPresent(ev, keys)
  {
    r := None;
    var j := 0;
    while j < |keys|
      invariant 0 <= j <= |keys|
      invariant forall q :: 0 <= q < j ==> keys[q] !in ev
    {
      if keys[j] in ev {
        r := Some(j);
        break;
      }
      j := j + 1;
    }
    FirstPresentIs(ev, keys, r);
  }

  /** The first present key is determined by the keys before it being absent. */
  lemma FirstPresentIs(ev: TraceEvent, keys: seq<string>, r: Option<nat>)
    requires r.Some? ==> r.value < |keys| && keys[r.value] in ev && forall j :: 0 <= j < r.value ==> keys[j] !in ev
    requires r.None? ==> forall j :: 0 <= j < |keys| ==> keys[j] !in ev
    ensures r == FirstPresent(ev, keys)
  {
  }

  /** `trace_steps` for one trace type, built in place. */
  method GroupTraceEvents(events: seq<TraceEvent>, traceType: string) returns (r: Result<seq<Group>>)
    ensures r == Grouped(events, traceType)
  {
    var traceSteps: seq<Group> := [];
    var n := 0;
    var info := InfoTypes(traceType);
    while n < |events|
      invariant 0 <= n <= |events|
      invariant Grouped(events[..n], traceType) == Ok(traceSteps)
    {
      var trace := events[n];
      assert events[..n + 1][..n] == events[..n];
      if info.Some? {
        var k := FindInfoKey(trace, info.value);
        if k.Some? {
          match InfoId(trace[info.value[k.value]])
          case Fail(c) =>
            GroupedFailurePersists(events, n + 1, traceType);
            return Fail(c);
          case Ok(traceId) =>
            traceSteps := AppendTo(traceSteps, traceId, Event(trace));
        }
      } else {
        match GuardrailId(trace)
        case Fail(c) =>
          GroupedFailurePersists(events, n + 1, traceType);
          return Fail(c);
        case Ok(traceId) =>
          traceSteps := Assign(traceSteps, traceId, [Wrapped(traceType, trace)]);
      }
      n := n + 1;
    }
    assert events[..n] == events;
    r := Ok(traceSteps);
  }

  lemma {:induction false} GroupedFailurePersists(events: seq<TraceEvent>, n: nat, traceType: string)
    requires n <= |events| && Grouped(events[..n], traceType).Fail?
    ensures Grouped(events, traceType) == Grouped(events[..n], traceType)
    decreases |events| - n
  {
    if n < |events| {
      var longer := events[..n + 1];
      assert longer[..n] == events[..n];
      GroupedFailurePersists(events, n + 1, traceType);
    } else {
      assert events[..n] == events;
    }
  }

  // ---------------------------------------------------------------------
  // Step numbering across phases (app.py:200-239)
  // ---------------------------------------------------------------------

  /** One "Trace Step N" expander. */
  datatype Step = Step(number: nat, traceType: string, id: string, items: seq<Item>)

  /** One phase of the sidebar: its header, whether any of its trace types
      was present (otherwise the phase shows "None"), and its steps. */
  datatype PhaseView = PhaseView(header: string, hasTrace: bool, steps: seq<Step>)

  /** The steps of one trace type, numbered from `start`. */
  function Numbered(gs: seq<Group>, traceType: string, start: nat): seq<Step> {
    seq(|gs|, p requires 0 <= p < |gs| => Step(start + p, traceType, gs[p].id, gs[p].items))
  }

  /** The grouping of every trace type present in the payload. The numbering
      below depends on the payload only through it. */
  type TraceGroups = map<string, Result<seq<Group>>>

  function GroupsByType(trace: TracePayload): TraceGroups {
    map tt | tt in trace :: Grouped(trace[tt], tt)
  }

  /** The groups of one trace type; an absent type has none. */
  function TypeGroups(g: TraceGroups, traceType: string): Result<seq<Group>> {
    if traceType in g then g[traceType] else Ok([])
  }

  /** Whether one of `types` is present: `has_trace` at the end of a phase. */
  predicate AnyPresent(g: TraceGroups, types: seq<string>)
    decreases |types|
  {
    |types| > 0 && (AnyPresent(g, types[..|types| - 1]) || types[|types| - 1] in g)
  }

  lemma {:induction false} AnyPresentIff(g: TraceGroups, types: seq<string>)
    ensures AnyPresent(g, types) <==> exists k :: 0 <= k < |types| && types[k] in g
    decreases |types|
  {
    if |types| > 0 {
      var n := |types| - 1;
      var init := types[..n];
      AnyPresentIff(g, init);
      if AnyPresent(g, init) {
        var k :| 0 <= k < |init| && init[k] in g;
        assert types[k] == init[k];
      }
      if exists k :: 0 <= k < |types| && types[k] in g {
        var k :| 0 <= k < |types| && types[k] in g;
        if k < n {
          assert init[k] == types[k];
        }
      }
    }
  }

  /** The steps of the trace types of one phase, the counter starting at `start`. */
  function PhaseSteps(g: TraceGroups, types: seq<string>, start: nat): Result<seq<Step>>
    decreases |types|
  {
    if |types| == 0 then Ok([])
    else
      match PhaseSteps(g, types[..|types| - 1], start)
      case Fail(c) => Fail(c)
      case Ok(prev) =>
        var tt := types[|types| - 1];
        match TypeGroups(g, tt)
        case Fail(c) => Fail(c)
        case Ok(gs) => Ok(prev + Numbered(gs, tt, start + |prev|))
  }

  /** All steps of the given phases, in order. */
  function AllSteps(views: seq<PhaseView>): seq<Step>
    decreases |views|
  {
    if |views| == 0 then [] else AllSteps(views[..|views| - 1]) + views[|views| - 1].steps
  }

  /** One phase of the sidebar, its steps numbered from `start`. */
  function PhaseViewOf(g: TraceGroups, ph: Phase, start: nat): Result<PhaseView> {
    match PhaseSteps(g, ph.traceTypes, start)
    case Fail(c) => Fail(c)
    case Ok(steps) => Ok(PhaseView(ph.header, AnyPresent(g, ph.traceTypes), steps))
  }

  /** The sidebar for `phases`, the counter starting at `start`. */
  function Views(g: TraceGroups, phases: seq<Phase>, start: nat): Result<seq<PhaseView>>
    decreases |phases|
  {
    if |phases| == 0 then Ok([])
    else
      match Views(g, phases[..|phases| - 1], start)
      case Fail(c) => Fail(c)
      case Ok(prev) =>
        match PhaseViewOf(g, phases[|phases| - 1], start + |AllSteps(prev)|)
        case Fail(c) => Fail(c)
        case Ok(v) => Ok(prev + [v])
  }

  /** The steps of a phase are numbered consecutively from `start`. */
  lemma {:induction false} PhaseStepsNumbered(g: TraceGroups, types: seq<string>, start: nat)
    requires PhaseSteps(g, types, start).Ok?
    ensures var steps := PhaseSteps(g, types, start).value;
      forall p :: 0 <= p < |steps| ==> steps[p].number == start + p
    decreases |types|
  {
    if |types| > 0 {
      PhaseStepsNumbered(g, types[..|types| - 1], start);
    }
  }

  /** A phase none of whose trace types is present has no steps. */
  lemma {:induction false} PhaseStepsAbsent(g: TraceGroups, types: seq<string>, start: nat)
    requires !AnyPresent(g, types)
    ensures PhaseSteps(g, types, start) == Ok([])
    decreases |types|
  {
    if |types| > 0 {
      var init := types[..|types| - 1];
      PhaseStepsAbsent(g, init, start);
      var last := types[|types| - 1];
      assert TypeGroups(g, last) == Ok([]);
      var none: seq<Step> := [];
      assert Numbered([], last, start) == none;
      assert none + none == none;
      assert PhaseSteps(g, types, start) == Ok(none + none);
    }
  }

  /** One phase: its header, "None" exactly when none of its trace types
      is present and then no steps, and its steps numbered from `start`. */
  lemma PhaseViewFacts(g: TraceGroups, ph: Phase, start: nat)
    requires PhaseViewOf(g, ph, start).Ok?
    ensures var v := PhaseViewOf(g, ph, start).value;
      && v.header == ph.header
      && (v.hasTrace <==> AnyPresent(g, ph.traceTypes))
      && (!v.hasTrace ==> v.steps == [])
      && forall p :: 0 <= p < |v.steps| ==> v.steps[p].number == start + p
  {
    PhaseStepsNumbered(g, ph.traceTypes, start);
    if !AnyPresent(g, ph.traceTypes) {
      PhaseStepsAbsent(g, ph.traceTypes, start);
    }
  }

  /** The views of a table with one more phase. */
  lemma ViewsLast(g: TraceGroups, phases: seq<Phase>, start: nat) returns (prev: seq<PhaseView>, v: PhaseView)
    requires |phases| > 0 && Views(g, phases, start).Ok?
    ensures Views(g, phases[..|phases| - 1], start) == Ok(prev)
    ensures PhaseViewOf(g, phases[|phases| - 1], start + |AllSteps(prev)|) == Ok(v)
    ensures Views(g, phases, start).value == prev + [v]
  {
    prev := Views(g, phases[..|phases| - 1], start).value;
    v := PhaseViewOf(g, phases[|phases| - 1], start + |AllSteps(prev)|).value;
  }

  /** One view per phase, in order, each under its phase's header. */
  lemma {:induction false} ViewsHeaders(g: TraceGroups, phases: seq<Phase>, start: nat)
    requires Views(g, phases, start).Ok?
    ensures var vs := Views(g, phases, start).value;
      && |vs| == |phases|
      && forall q :: 0 <= q < |vs| ==> vs[q].header == phases[q].header
    decreases |phases|
  {
    if |phases| > 0 {
      var prev, v := ViewsLast(g, phases, start);
      ViewsHeaders(g, phases[..|phases| - 1], start);
      PhaseViewFacts(g, phases[|phases| - 1], start + |AllSteps(prev)|);
      HeadersSnoc(phases, prev, v);
    }
  }

  lemma HeadersSnoc(phases: seq<Phase>, prev: seq<PhaseView>, v: PhaseView)
    requires |phases| > 0 && |prev| == |phases| - 1
    requires forall q :: 0 <= q < |prev| ==> prev[q].header == phases[..|phases| - 1][q].header
    requires v.header == phases[|phases| - 1].header
    ensures forall q :: 0 <= q < |prev + [v]| ==> (prev + [v])[q].header == phases[q].header
  {
    forall q | 0 <= q < |prev|
      ensures (prev + [v])[q].header == phases[q].header
    {
      assert phases[..|phases| - 1][q] == phases[q];
    }
  }

  /** Over the whole sidebar the counter runs `start`, `start + 1`, ... without
      gap or repetition. */
  lemma {:induction false} ViewsNumbered(g: TraceGroups, phases: seq<Phase>, start: nat)
    requires Views(g, phases, start).Ok?
    ensures var vs := Views(g, phases, start).value;
      forall p :: 0 <= p < |AllSteps(vs)| ==> AllSteps(vs)[p].number == start + p
    decreases |phases|
  {
    if |phases| > 0 {
      var prev, v := ViewsLast(g, phases, start);
      ViewsNumbered(g, phases[..|phases| - 1], start);
      PhaseViewFacts(g, phases[|phases| - 1], start + |AllSteps(prev)|);
      AllStepsSnoc(prev, v);
      NumbersAppend(AllSteps(prev), v.steps, start);
    }
  }

  lemma AllStepsSnoc(prev: seq<PhaseView>, v: PhaseView)
    ensures AllSteps(prev + [v]) == AllSteps(prev) + v.steps
  {
    assert (prev + [v])[..|prev|] == prev;
  }

  lemma NumbersAppend(a: seq<Step>, b: seq<Step>, start: nat)
    requires forall p :: 0 <= p < |a| ==> a[p].number == start + p
    requires forall p :: 0 <= p < |b| ==> b[p].number == start + |a| + p
    ensures forall p :: 0 <= p < |a + b| ==> (a + b)[p].number == start + p
  {
  }

  /** The view `v` of phase `ph` shows "None" exactly when none of the
      phase's trace types is present, and then it has no steps. */
  predicate ShowsPresence(g: TraceGroups, ph: Phase, v: PhaseView) {
    && (v.hasTrace <==> AnyPresent(g, ph.traceTypes))
    && (!v.hasTrace ==> v.steps == [])
  }

  /** Every phase of the sidebar shows "None" exactly when none of its trace
      types is present, and then it has no steps. */
  lemma {:induction false} ViewsNone(g: TraceGroups, phases: seq<Phase>, start: nat)
    requires Views(g, phases, start).Ok?
    ensures var vs := Views(g, phases, start).value;
      && |vs| == |phases|
      && forall q :: 0 <= q < |vs| ==> ShowsPresence(g, phases[q], vs[q])
    decreases |phases|
  {
    if |phases| > 0 {
      var prev, v := ViewsLast(g, phases, start);
      ViewsNone(g, phases[..|phases| - 1], start);
      PhaseViewFacts(g, phases[|phases| - 1], start + |AllSteps(prev)|);
      PresenceSnoc(g, phases, prev, v);
    }
  }

  lemma PresenceSnoc(g: TraceGroups, phases: seq<Phase>, prev: seq<PhaseView>, v: PhaseView)
    requires |phases| > 0 && |prev| == |phases| - 1
    requires forall q :: 0 <= q < |prev| ==> ShowsPresence(g, phases[..|phases| - 1][q], prev[q])
    requires ShowsPresence(g, phases[|phases| - 1], v)
    ensures forall q :: 0 <= q < |prev + [v]| ==> ShowsPresence(g, phases[q], (prev + [v])[q])
  {
    forall q | 0 <= q < |prev|
      ensures ShowsPresence(g, phases[q], (prev + [v])[q])
    {
      assert phases[..|phases| - 1][q] == phases[q];
    }
  }

  // ---------------------------------------------------------------------
  // The rendering loops
  // ---------------------------------------------------------------------

  /** The loop over the trace types of one phase: `has_trace` and the steps,
      the counter advancing once per step. */
  method RenderPhase(trace: TracePayload, types: seq<string>, stepNum: nat)
    returns (hasTrace: bool, r: Result<seq<Step>>, next: nat)
    ensures r == PhaseSteps(GroupsByType(trace), types, stepNum)
    ensures r.Ok? ==> hasTrace == AnyPresent(GroupsByType(trace), types)
    ensures r.Ok? ==> next == stepNum + |r.value|
  {
    ghost var g := GroupsByType(trace);
    hasTrace := false;
    next := stepNum;
    var steps: seq<Step> := [];
    var t := 0;
    while t < |types|
      invariant 0 <= t <= |types|
      invariant hasTrace == AnyPresent(g, types[..t])
      invariant PhaseSteps(g, types[..t], stepNum) == Ok(steps)
      invariant next == stepNum + |steps|
    {
      var traceType := types[t];
      PresentSnoc(g, types, t);
      PhaseStepsStep(g, types, t, stepNum, steps);
      if traceType in trace {
        hasTrace := true;
        var grouped := GroupTraceEvents(trace[traceType], traceType);
        assert g[traceType] == grouped;
        if grouped.Fail? {
          PhaseStepsFailurePersists(g, types, t + 1, stepNum);
          return hasTrace, Fail(grouped.crash), next;
        }
        steps, next := NumberSteps(grouped.value, traceType, steps, next);
      } else {
        assert steps + Numbered([], traceType, next) == steps;
      }
      t := t + 1;
    }
    assert types[..t] == types;
    r := Ok(steps);
  }

  /** The loop over the groups of one trace type: one numbered step per
      group, `step_num` advancing each time. */
  method NumberSteps(gs: seq<Group>, traceType: string, steps: seq<Step>, stepNum: nat)
    returns (steps': seq<Step>, next: nat)
    ensures steps' == steps + Numbered(gs, traceType, stepNum)
    ensures next == stepNum + |gs|
  {
    steps', next := steps, stepNum;
    var p := 0;
    while p < |gs|
      invariant 0 <= p <= |gs|
      invariant steps' == steps + Numbered(gs[..p], traceType, stepNum)
      invariant next == stepNum + p
    {
      assert Numbered(gs[..p + 1], traceType, stepNum)
          == Numbered(gs[..p], traceType, stepNum) + [Step(next, traceType, gs[p].id, gs[p].items)];
      steps' := steps' + [Step(next, traceType, gs[p].id, gs[p].items)];
      next := next + 1;
      p := p + 1;
    }
    assert gs[..p] == gs;
  }

  /** One more trace type: its groups are numbered after the steps so far. */
  lemma PhaseStepsStep(g: TraceGroups, types: seq<string>, t: nat, start: nat, steps: seq<Step>)
    requires t < |types| && PhaseSteps(g, types[..t], start) == Ok(steps)
    ensures PhaseSteps(g, types[..t + 1], start) ==
      match TypeGroups(g, types[t])
      case Fail(c) => Fail(c)
      case Ok(gs) => Ok(steps + Numbered(gs, types[t], start + |steps|))
  {
    assert types[..t + 1][..t] == types[..t];
    assert types[..t + 1][t] == types[t];
  }

  lemma PresentSnoc(g: TraceGroups, types: seq<string>, t: nat)
    requires t < |types|
    ensures AnyPresent(g, types[..t + 1]) <==> AnyPresent(g, types[..t]) || types[t] in g
  {
    assert types[..t + 1][..t] == types[..t];
  }

  lemma {:induction false} PhaseStepsFailurePersists(g: TraceGroups, types: seq<string>, n: nat, start: nat)
    requires n <= |types| && PhaseSteps(g, types[..n], start).Fail?
    ensures PhaseSteps(g, types, start) == PhaseSteps(g, types[..n], start)
    decreases |types| - n
  {
    if n < |types| {
      var longer := types[..n + 1];
      assert longer[..n] == types[..n];
      PhaseStepsFailurePersists(g, types, n + 1, start);
    } else {
      assert types[..n] == types;
    }
  }

  /** `render_trace_section`'s loop over the phases, with one `step_num`
      starting at 1. */
  method RenderTrace(trace: TracePayload) returns (r: Result<seq<PhaseView>>)
    ensures r == Views(GroupsByType(trace), TraceTypesMap, 1)
  {
    r := RenderPhases(trace, TraceTypesMap);
  }

  /** The loop over a table of phases. */
  method RenderPhases(trace: TracePayload, phases: seq<Phase>) returns (r: Result<seq<PhaseView>>)
    ensures r == Views(GroupsByType(trace), phases, 1)
  {
    ghost var g := GroupsByType(trace);
    var stepNum := 1;
    var views: seq<PhaseView> := [];
    var q := 0;
    while q < |phases|
      invariant 0 <= q <= |phases|
      invariant Views(g, phases[..q], 1) == Ok(views)
      invariant stepNum == 1 + |AllSteps(views)|
    {
      var ph := phases[q];
      var hasTrace, steps, next := RenderPhase(trace, ph.traceTypes, stepNum);
      ViewsStep(g, phases, q, views);
      if steps.Fail? {
        ViewsFailurePersists(g, phases, q + 1);
        return Fail(steps.crash);
      }
      views := views + [PhaseView(ph.header, hasTrace, steps.value)];
      stepNum := next;
      q := q + 1;
    }
    assert phases[..q] == phases;
    r := Ok(views);
  }

  /** One more phase: its steps continue the numbering of the views so far. */
  lemma ViewsStep(g: TraceGroups, phases: seq<Phase>, q: nat, views: seq<PhaseView>)
    requires q < |phases| && Views(g, phases[..q], 1) == Ok(views)
    ensures var ph := phases[q];
      Views(g, phases[..q + 1], 1) ==
        match PhaseSteps(g, ph.traceTypes, 1 + |AllSteps(views)|)
        case Fail(c) => Fail(c)
        case Ok(steps) => Ok(views + [PhaseView(ph.header, AnyPresent(g, ph.traceTypes), steps)])
    ensures forall v: PhaseView :: AllSteps(views + [v]) == AllSteps(views) + v.steps
  {
    assert phases[..q + 1][..q] == phases[..q];
    assert phases[..q + 1][q] == phases[q];
    forall v: PhaseView
      ensures AllSteps(views + [v]) == AllSteps(views) + v.steps
    {
      assert (views + [v])[..|views|] == views;
    }
  }

  lemma {:induction false} ViewsFailurePersists(g: TraceGroups, phases: seq<Phase>, n: nat)
    requires n <= |phases| && Views(g, phases[..n], 1).Fail?
    ensures Views(g, phases, 1) == Views(g, phases[..n], 1)
    decreases |phases| - n
  {
    if n < |phases| {
      var longer := phases[..n + 1];
      assert longer[..n] == phases[..n];
      ViewsFailurePersists(g, phases, n + 1);
    } else {
      assert phases[..n] == phases;
    }
  }
}

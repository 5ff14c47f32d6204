/**
 * The event queue behind every entity class: one array per entity in a map shared by the class,
 * pushed to, handed out and replaced.
 */
module EntityEvents {

  type Event = int

  /** An entity; only its identity matters here. */
  class Entity {
    constructor () {}
  }

  // ---------- the history of a class, and what it means for one entity ----------

  datatype Op = Add(entity: Entity, event: Event) | Release(entity: Entity) | Clear(entity: Entity)

  datatype Fate = Pending | Released | Cleared

  /** What the operations after an addition do with the event: the first release or clear decides. */
  ghost function FateIn(later: seq<Op>, e: Entity): Fate {
    if later == [] then Pending
    else
      match later[0]
      case Release(x) => if x == e then Released else FateIn(later[1..], e)
      case Clear(x) => if x == e then Cleared else FateIn(later[1..], e)
      case Add(_, _) => FateIn(later[1..], e)
  }

  /** The events added to an entity that met a given fate, in the order they were added. */
  ghost function WithFate(trace: seq<Op>, e: Entity, fate: Fate): seq<Event> {
    if trace == [] then []
    else
      (if trace[0].Add? && trace[0].entity == e && FateIn(trace[1..], e) == fate then [trace[0].event] else [])
      + WithFate(trace[1..], e, fate)
  }

  /** The events added to an entity that no clear dropped, in order. */
  ghost function Uncleared(trace: seq<Op>, e: Entity): seq<Event> {
    if trace == [] then []
    else
      (if trace[0].Add? && trace[0].entity == e && FateIn(trace[1..], e) != Cleared then [trace[0].event] else [])
      + Uncleared(trace[1..], e)
  }

  lemma {:induction false} NothingDrained(trace: seq<Op>, e: Entity)
    requires FateIn(trace, e) == Pending
    ensures WithFate(trace, e, Released) == [] && WithFate(trace, e, Cleared) == []
    ensures Uncleared(trace, e) == WithFate(trace, e, Pending)
  {
    if trace != [] {
      NothingDrained(trace[1..], e);
    }
  }

  /** Uncleared events are the released ones followed by the pending ones. */
  lemma {:induction false} UnclearedSplits(trace: seq<Op>, e: Entity)
    ensures Uncleared(trace, e) == WithFate(trace, e, Released) + WithFate(trace, e, Pending)
  {
    if trace != [] {
      UnclearedSplits(trace[1..], e);
      if FateIn(trace[1..], e) == Pending {
        NothingDrained(trace[1..], e);
      }
    }
  }

  lemma {:induction false} FateAfter(later: seq<Op>, op: Op, e: Entity)
    ensures FateIn(later + [op], e) == if FateIn(later, e) != Pending then FateIn(later, e) else FateIn([op], e)
  {
    if later != [] {
      FateAfter(later[1..], op, e);
      assert (later + [op])[1..] == later[1..] + [op];
    } else {
      assert later + [op] == [op];
    }
  }

  /** How one more operation changes the three lists of an entity. */
  lemma {:induction false} OneMore(trace: seq<Op>, op: Op, e: Entity)
    ensures WithFate(trace + [op], e, Pending) ==
            if op.entity != e then WithFate(trace, e, Pending)
            else if op.Add? then WithFate(trace, e, Pending) + [op.event] else []
    ensures WithFate(trace + [op], e, Released) ==
            if op == Release(e) then WithFate(trace, e, Released) + WithFate(trace, e, Pending)
              else WithFate(trace, e, Released)
    decreases trace
  {
    var all := trace + [op];
    if trace == [] {
      assert all == [op] && [op][1..] == [];
    } else {
      assert all[0] == trace[0] && all[1..] == trace[1..] + [op];
      OneMore(trace[1..], op, e);
      FateAfter(trace[1..], op, e);
      assert [op][1..] == [];
      if FateIn(trace[1..], e) == Pending {
        NothingDrained(trace[1..], e);
      }
    }
  }

  // ---------- the arrays in the heap ----------

  class EventArray {
    var items: seq<Event>

    constructor ()
      ensures items == []
    {
      items := [];
    }

    method Push(event: Event)
      modifies this
      ensures items == old(items) + [event]
    {
      items := items + [event];
    }
  }

  /** A release: who it was for, the array that was handed out, and what it held. */
  datatype Handout = Handout(entity: Entity, array_: EventArray, contents: seq<Event>)

  ghost function HandedTo(outs: seq<Handout>, e: Entity): seq<Event> {
    if outs == [] then []
    else HandedTo(outs[..|outs| - 1], e) + if outs[|outs| - 1].entity == e then outs[|outs| - 1].contents else []
  }

  /** One entity class: the map of its closure, with its history as ghost state. */
  class EntityClass {
    var eventsMap: map<Entity, EventArray>
    ghost var trace: seq<Op>
    ghost var handedOut: seq<Handout>

    ghost function Arrays(): set<EventArray>
      reads this
    {
      eventsMap.Values + set h | h in handedOut :: h.array_
    }

    /**
     * Every live array holds its own entity's pending events and belongs to nobody else; every
     * array handed out still holds what it held, and is nobody's live array.
     */
    ghost predicate Valid()
      reads this, Arrays()
    {
      && (forall e :: e in eventsMap ==> eventsMap[e].items == WithFate(trace, e, Pending))
      && (forall e, f :: e in eventsMap && f in eventsMap && eventsMap[e] == eventsMap[f] ==> e == f)
      && (forall h :: h in handedOut ==> h.array_.items == h.contents && h.array_ !in eventsMap.Values)
      && (forall e :: e in eventsMap ==> HandedTo(handedOut, e) == WithFate(trace, e, Released))
      && (forall op :: op in trace ==> op.entity in eventsMap)
      && (forall h :: h in handedOut ==> h.entity in eventsMap)
    }

    constructor ()
      ensures Valid() && trace == [] && handedOut == [] && eventsMap == map[]
    {
      eventsMap, trace, handedOut := map[], [], [];
    }

    method AddEvent(e: Entity, event: Event)
      requires Valid() && e in eventsMap
      modifies eventsMap[e], this`trace
      ensures Valid() && trace == old(trace) + [Add(e, event)] && handedOut == old(handedOut)
              && eventsMap == old(eventsMap)
    {
      hide WithFate, HandedTo, FateIn;
      ghost var op := Add(e, event);
      eventsMap[e].Push(event);
      trace := trace + [op];
      forall f | f in eventsMap
        ensures eventsMap[f].items == WithFate(trace, f, Pending)
                && HandedTo(handedOut, f) == WithFate(trace, f, Released)
      {
        OneMore(old(trace), op, f);
      }
      assert forall h :: h in handedOut ==> h.array_ != eventsMap[e];
    }

    /** The live array itself, not a copy. */
    method GetEvents(e: Entity) returns (events: EventArray)
      requires Valid() && e in eventsMap
      ensures events == eventsMap[e] && events.items == WithFate(trace, e, Pending)
    {
      events := eventsMap[e];
    }

    /** Also what the constructor of an entity calls. */
    method ClearEvents(e: Entity)
      requires Valid()
      modifies this`eventsMap, this`trace
      ensures Valid() && trace == old(trace) + [Clear(e)] && handedOut == old(handedOut)
      ensures e in eventsMap && fresh(eventsMap[e]) && eventsMap == old(eventsMap)[e := eventsMap[e]]
    {
      hide WithFate, HandedTo, FateIn;
      ghost var op := Clear(e);
      if e !in eventsMap {
        NeverSeen(trace, e);
        NeverHanded(handedOut, e);
      }
      assert HandedTo(handedOut, e) == WithFate(trace, e, Released);
      var none := new EventArray();
      eventsMap := eventsMap[e := none];
      trace := trace + [op];
      forall f | f in eventsMap
        ensures eventsMap[f].items == WithFate(trace, f, Pending)
                && HandedTo(handedOut, f) == WithFate(trace, f, Released)
      {
        OneMore(old(trace), op, f);
      }
      ReplacedValues(old(eventsMap), e, none, eventsMap);
    }

    method ReleaseEvents(e: Entity) returns (events: EventArray)
      requires Valid() && e in eventsMap
      modifies this
      ensures Valid() && trace == old(trace) + [Release(e)]
      ensures events == old(eventsMap[e]) && events.items == WithFate(old(trace), e, Pending)
      ensures handedOut == old(handedOut) + [Handout(e, events, events.items)]
      ensures eventsMap.Keys == old(eventsMap).Keys && forall f :: f in eventsMap && f != e ==>
              eventsMap[f] == old(eventsMap)[f]
    {
      hide WithFate, HandedTo, FateIn;
      ghost var op := Release(e);
      events := GetEvents(e);
      var none := new EventArray();
      eventsMap := eventsMap[e := none];
      trace := trace + [op];
      ghost var out := Handout(e, events, events.items);
      handedOut := handedOut + [out];
      forall f | f in eventsMap
        ensures eventsMap[f].items == WithFate(trace, f, Pending)
                && HandedTo(handedOut, f) == WithFate(trace, f, Released)
      {
        HandedOneMore(old(handedOut), out, f);
        OneMore(old(trace), op, f);
      }
      ReplacedValues(old(eventsMap), e, none, eventsMap);
    }
  }

  lemma ReplacedValues(m: map<Entity, EventArray>, e: Entity, a: EventArray, m': map<Entity, EventArray>)
    requires m' == m[e := a]
    ensures forall x :: x in m'.Values ==> x == a || exists f :: f in m && f != e && m[f] == x
  {
    forall x | x in m'.Values ensures x == a || exists f :: f in m && f != e && m[f] == x {
      var f :| f in m' && m'[f] == x;
    }
  }

  lemma HandedOneMore(outs: seq<Handout>, out: Handout, e: Entity)
    ensures HandedTo(outs + [out], e) == HandedTo(outs, e) + if out.entity == e then out.contents else []
  {
    assert (outs + [out])[..|outs|] == outs;
  }

  lemma {:induction false} NeverSeen(trace: seq<Op>, e: Entity)
    requires forall op :: op in trace ==> op.entity != e
    ensures WithFate(trace, e, Pending) == [] && WithFate(trace, e, Released) == []
  {
    if trace != [] {
      assert trace[0] in trace && forall op :: op in trace[1..] ==> op in trace;
      NeverSeen(trace[1..], e);
    }
  }

  lemma {:induction false} NeverHanded(outs: seq<Handout>, e: Entity)
    requires forall h :: h in outs ==> h.entity != e
    ensures HandedTo(outs, e) == []
  {
    if outs != [] {
      assert outs[|outs| - 1] in outs;
      NeverHanded(outs[..|outs| - 1], e);
    }
  }

  /**
   * After any interleaving: what an entity's releases handed out, followed by what it still
   * holds, is its uncleared events, once each and in order; and no array handed out has changed.
   */
  lemma EventsConserved(c: EntityClass, e: Entity)
    requires c.Valid() && e in c.eventsMap
    ensures HandedTo(c.handedOut, e) + c.eventsMap[e].items == Uncleared(c.trace, e)
    ensures forall h :: h in c.handedOut ==> h.array_.items == h.contents
  {
    UnclearedSplits(c.trace, e);
  }
}

/** The toast container that the rest of the application reaches through `useToast()`
    (components/ToastContainer.jsx). It keeps the ordered list of toasts and a map from
    toast id to the handle of the one-shot timer that will remove it.

    - `addToast` appends a record, arms a timer for `max(0, duration)` and returns the id;
    - `removeToast` clears the pending timer (if the map has one), deletes the map entry
      and filters the id out of the list;
    - the timer's callback is `removeToast(id)` itself, so manual close and expiry share
      one removal path.

    The state changes are specified by functions on `Queue` values (`Added`, `Removed`,
    `Fired`); the class `ToastContainer` performs them step by step, and the lemmas here
    state what the functions promise, up to "a toast leaves the list exactly once" over
    any sequence of add, close and timer events. */
module Container {
  import opened Toasts

  const DefaultKind: string := "info"
  const DefaultDuration: int := 3000

  /** The argument of `addToast({ message, type = 'info', duration = 3000 })`. */
  datatype ToastRequest = ToastRequest(message: string, kind: Option<string>, duration: Option<int>)

  /** `Math.max(0, duration)`: the delay the timer is armed with. */
  function Delay(duration: int): (d: int)
    ensures d >= 0 && d >= duration
    ensures d == duration || d == 0
  {
    if duration < 0 then 0 else duration
  }

  /** The record `addToast` builds for a request, with the parameter defaults applied. */
  function ItemFor(id: Id, req: ToastRequest): (t: ToastItem)
    ensures t.id == id && t.message == req.message
    ensures t.kind == (if req.kind.Some? then req.kind.value else "info")
    ensures t.duration == (if req.duration.Some? then req.duration.value else 3000)
  {
    ToastItem(id, req.message, req.kind.GetOr(DefaultKind), req.duration.GetOr(DefaultDuration))
  }

  /** The invariant of the container: the shared well-formedness and no armed delay is negative. */
  predicate Invariant(q: Queue) {
    && WellFormed(q)
    && (forall h :: h in q.pending ==> q.pending[h].delay >= 0)
  }

  /** The state on mount: no toasts, no timers; the host hands out positive handles. */
  function Initial(): (q: Queue)
    ensures Invariant(q) && q.items == []
  {
    Queue([], map[], map[], 1)
  }

  /** `addToast(req)` with `id` from the fresh-id oracle: the record goes to the tail, and
      the id's map entry names a newly armed timer for it with delay `max(0, duration)`. */
  function Added(q: Queue, id: Id, req: ToastRequest): (r: Queue)
    ensures r.items == q.items + [ItemFor(id, req)]
    ensures id in r.timers && r.timers[id] in r.pending
    ensures r.pending[r.timers[id]] == Timer(id, Delay(ItemFor(id, req).duration))
    ensures r.pending.Keys == q.pending.Keys + {r.timers[id]}
    ensures forall h :: h in q.pending && h != r.timers[id] ==> r.pending[h] == q.pending[h]
  {
    var item := ItemFor(id, req);
    var handle := q.nextHandle;
    Queue(q.items + [item],
          q.timers[id := handle],
          q.pending[handle := Timer(id, Delay(item.duration))],
          handle + 1)
  }

  /** `removeToast(id)`: the id is filtered out of the list and loses its map entry; armed
      timers are only ever cleared, never added or changed. */
  function Removed(q: Queue, id: Id): (r: Queue)
    ensures r.items == Without(q.items, id)
    ensures id !in r.timers && r.timers.Keys == q.timers.Keys - {id}
    ensures forall h :: h in r.pending ==> h in q.pending && r.pending[h] == q.pending[h]
    ensures r.nextHandle == q.nextHandle
  {
    var cleared := if id in q.timers
                   then q.(pending := q.pending - {q.timers[id]}, timers := q.timers - {id})
                   else q;
    cleared.(items := Without(cleared.items, id))
  }

  /** The armed timer `h` fires: its callback runs `removeToast(target)`, and the host
      retires the timer (clearing it inside the callback had no effect on it). */
  function Fired(q: Queue, h: Handle): (r: Queue)
    requires h in q.pending
    ensures r.items == Without(q.items, q.pending[h].target)
    ensures q.pending[h].target !in r.timers && h !in r.pending
    ensures forall g :: g in r.pending ==> g in q.pending && r.pending[g] == q.pending[g]
  {
    var after := Removed(q, q.pending[h].target);
    after.(pending := after.pending - {h})
  }

  // ---------------------------------------------------------------------------
  // One operation at a time

  /** `addToast` appends the new record at the tail, records a timer for the new id in the
      map, and that timer is armed with a non-negative delay and removes exactly this id;
      the earlier toasts and the timers of other ids are untouched. */
  lemma AddedAppends(q: Queue, id: Id, req: ToastRequest)
    requires Invariant(q) && id !in Ids(q.items)
    ensures var r := Added(q, id, req);
      && |r.items| == |q.items| + 1
      && r.items[..|q.items|] == q.items
      && r.items[|q.items|] == ItemFor(id, req)
      && id in r.timers && r.timers[id] in r.pending
      && r.pending[r.timers[id]] == Timer(id, Delay(ItemFor(id, req).duration))
      && r.timers[id] !in q.pending
      && (forall h :: h in q.pending ==> h in r.pending && r.pending[h] == q.pending[h])
      && (forall x :: x in q.timers ==> x in r.timers && r.timers[x] == q.timers[x])
  {
  }

  lemma AddedKeepsInvariant(q: Queue, id: Id, req: ToastRequest)
    requires Invariant(q) && id !in Ids(q.items)
    ensures Invariant(Added(q, id, req))
  {
    var item := ItemFor(id, req);
    var r := Added(q, id, req);
    assert DistinctIds(r.items) by { DistinctAppend(q.items, item); }
    assert r.timers.Keys == Ids(r.items) by { IdsAppend(q.items, item); }
    assert TimersAgree(r) by { ArmedTimersAgree(q, id, Delay(item.duration)); }
    forall h | h in r.pending ensures r.pending[h].delay >= 0 {
      assert h != q.nextHandle ==> h in q.pending && r.pending[h] == q.pending[h];
    }
  }

  lemma RemovedKeepsInvariant(q: Queue, id: Id)
    requires Invariant(q)
    ensures Invariant(Removed(q, id))
  {
    var r := Removed(q, id);
    var kept := Without(q.items, id);
    assert r.items == kept;
    assert DistinctIds(r.items) by { DistinctWithout(q.items, id); }
    assert r.timers.Keys == Ids(r.items) by { IdsWithout(q.items, id); }
    assert TimersAgree(r) by {
      if id in q.timers {
        ClearedTimersAgree(q, id);
      }
    }
    forall h | h in r.pending ensures r.pending[h].delay >= 0 {
      assert h in q.pending && r.pending[h] == q.pending[h];
    }
  }

  /** After `removeToast(id)` no toast with that id is listed, the map has no entry for it
      and no armed timer will remove it any more; the other toasts keep their order, and
      when the removed toast sat between `before` and `after` these two are all that is left. */
  lemma RemovedEffect(q: Queue, id: Id)
    requires Invariant(q)
    ensures var r := Removed(q, id);
      && id !in Ids(r.items) && id !in r.timers
      && (forall h :: h in r.pending ==> r.pending[h].target != id)
      && (forall t :: t in r.items <==> t in q.items && t.id != id)
    ensures forall before, t, after :: q.items == before + [t] + after && t.id == id ==>
      Removed(q, id).items == before + after
  {
    forall before, t, after | q.items == before + [t] + after && t.id == id
      ensures Removed(q, id).items == before + after
    {
      DistinctSplit(before, t, after);
      WithoutSplit(before, t, after);
    }
  }

  /** `removeToast` of an id that is not listed changes nothing at all: a late close, or a
      close after expiry, is harmless. */
  lemma RemovedAbsentIsNoop(q: Queue, id: Id)
    requires Invariant(q) && id !in Ids(q.items)
    ensures Removed(q, id) == q
  {
    WithoutAbsent(q.items, id);
  }

  /** Removing twice is removing once, in every state. */
  lemma RemovedIdempotent(q: Queue, id: Id)
    ensures Removed(Removed(q, id), id) == Removed(q, id)
  {
    WithoutIdempotent(q.items, id);
  }

  /** A timer firing has exactly the effect of `removeToast` on the id it was armed for. */
  lemma FiredIsRemoved(q: Queue, h: Handle)
    requires Invariant(q) && h in q.pending
    ensures Fired(q, h) == Removed(q, q.pending[h].target)
  {
    var id := q.pending[h].target;
    assert q.timers[id] == h;
    var r := Removed(q, id);
    assert h !in r.pending;
    assert r.pending - {h} == r.pending;
  }

  lemma FiredKeepsInvariant(q: Queue, h: Handle)
    requires Invariant(q) && h in q.pending
    ensures Invariant(Fired(q, h))
  {
    FiredIsRemoved(q, h);
    RemovedKeepsInvariant(q, q.pending[h].target);
  }

  // ---------------------------------------------------------------------------
  // Interleavings of events on the single event loop

  /** An `addToast` call (its id from the fresh-id oracle), a manual close of a toast card,
      or the firing of the armed timer with a given handle. */
  datatype Event = Add(id: Id, req: ToastRequest) | Close(id: Id) | Fire(handle: Handle)

  /** What can happen next: an added id is not listed (the oracle gives fresh ids), and only
      an armed timer can fire; a close may name any id. */
  predicate Enabled(q: Queue, e: Event) {
    match e
    case Add(id, _) => id !in Ids(q.items)
    case Close(_) => true
    case Fire(h) => h in q.pending
  }

  function Step(q: Queue, e: Event): Queue
    requires Enabled(q, e)
  {
    match e
    case Add(id, req) => Added(q, id, req)
    case Close(id) => Removed(q, id)
    case Fire(h) => Fired(q, h)
  }

  predicate Admissible(q: Queue, evs: seq<Event>)
    decreases |evs|
  {
    evs == [] || (Enabled(q, evs[0]) && Admissible(Step(q, evs[0]), evs[1..]))
  }

  function Run(q: Queue, evs: seq<Event>): Queue
    requires Admissible(q, evs)
    decreases |evs|
  {
    if evs == [] then q else Run(Step(q, evs[0]), evs[1..])
  }

  /** How many events of the run take the toast `id` out of the list. */
  function Removals(q: Queue, evs: seq<Event>, id: Id): nat
    requires Admissible(q, evs)
    decreases |evs|
  {
    if evs == [] then 0
    else
      var next := Step(q, evs[0]);
      (if id in Ids(q.items) && id !in Ids(next.items) then 1 else 0) + Removals(next, evs[1..], id)
  }

  /** The oracle never hands out `id` again during the run. */
  predicate NotReAdded(evs: seq<Event>, id: Id) {
    forall e :: e in evs && e.Add? ==> e.id != id
  }

  lemma StepKeepsInvariant(q: Queue, e: Event)
    requires Invariant(q) && Enabled(q, e)
    ensures Invariant(Step(q, e))
  {
    match e
    case Add(id, req) => AddedKeepsInvariant(q, id, req);
    case Close(id) => RemovedKeepsInvariant(q, id);
    case Fire(h) => FiredKeepsInvariant(q, h);
  }

  /** Without a fresh `Add` of it, an id that is not listed stays unlisted. */
  lemma StepKeepsAbsent(q: Queue, e: Event, id: Id)
    requires Invariant(q) && Enabled(q, e) && id !in Ids(q.items)
    requires !(e.Add? && e.id == id)
    ensures id !in Ids(Step(q, e).items)
  {
    match e
    case Add(x, req) => IdsAppend(q.items, ItemFor(x, req));
    case Close(x) => IdsWithout(q.items, x);
    case Fire(h) => IdsWithout(q.items, q.pending[h].target);
  }

  /** The run goes through valid states only. */
  lemma {:induction false} RunKeepsInvariant(q: Queue, evs: seq<Event>)
    requires Invariant(q) && Admissible(q, evs)
    ensures Invariant(Run(q, evs))
    decreases |evs|
  {
    if evs != [] {
      StepKeepsInvariant(q, evs[0]);
      RunKeepsInvariant(Step(q, evs[0]), evs[1..]);
    }
  }

  /** At most once: over any interleaving of adds, closes and timer firings in which the
      id is not handed out again, the toast leaves the list once if it was listed at the
      start and is gone at the end, and otherwise never. */
  lemma {:induction false} RemovedAtMostOnce(q: Queue, evs: seq<Event>, id: Id)
    requires Invariant(q) && Admissible(q, evs) && NotReAdded(evs, id)
    ensures Removals(q, evs, id) ==
            (if id in Ids(q.items) && id !in Ids(Run(q, evs).items) then 1 else 0)
    decreases |evs|
  {
    if evs != [] {
      var next := Step(q, evs[0]);
      StepKeepsInvariant(q, evs[0]);
      assert evs[0] in evs;
      assert NotReAdded(evs[1..], id) by {
        forall e | e in evs[1..] ensures e in evs { }
      }
      RemovedAtMostOnce(next, evs[1..], id);
      if id !in Ids(q.items) {
        StepKeepsAbsent(q, evs[0], id);
        StaysAbsent(next, evs[1..], id);
      } else if id !in Ids(next.items) {
        StaysAbsent(next, evs[1..], id);
      }
    }
  }

  /** Once an id is gone, it stays gone while the oracle does not hand it out again. */
  lemma {:induction false} StaysAbsent(q: Queue, evs: seq<Event>, id: Id)
    requires Invariant(q) && Admissible(q, evs) && NotReAdded(evs, id) && id !in Ids(q.items)
    ensures id !in Ids(Run(q, evs).items)
    decreases |evs|
  {
    if evs != [] {
      assert evs[0] in evs;
      StepKeepsInvariant(q, evs[0]);
      StepKeepsAbsent(q, evs[0], id);
      assert NotReAdded(evs[1..], id) by {
        forall e | e in evs[1..] ensures e in evs { }
      }
      StaysAbsent(Step(q, evs[0]), evs[1..], id);
    }
  }

  /** At least once: if a listed toast is closed by hand, or the timer armed for it fires,
      anywhere in the run, it is not listed at the end. Together with `RemovedAtMostOnce`
      the toast leaves the list exactly once, whichever of close and expiry comes first. */
  lemma {:induction false} ClosedOrExpiredIsGone(q: Queue, evs: seq<Event>, id: Id)
    requires Invariant(q) && Admissible(q, evs) && NotReAdded(evs, id)
    requires id in q.timers
    requires Close(id) in evs || Fire(q.timers[id]) in evs
    ensures id !in Ids(Run(q, evs).items)
    ensures Removals(q, evs, id) == 1
    decreases |evs|
  {
    var h := q.timers[id];
    var e := evs[0];
    var next := Step(q, e);
    StepKeepsInvariant(q, e);
    assert NotReAdded(evs[1..], id) by {
      forall x | x in evs[1..] ensures x in evs { }
    }
    assert evs == [e] + evs[1..];
    if e == Close(id) || e == Fire(h) {
      if e == Fire(h) {
        FiredIsRemoved(q, h);
      }
      RemovedEffect(q, id);
      StaysAbsent(next, evs[1..], id);
    } else {
      // Only these two events take the toast out, so it is still listed and its timer is
      // still the one armed at the start.
      assert id in Ids(next.items);
      TimerSurvivesStep(q, e, id);
      ClosedOrExpiredIsGone(next, evs[1..], id);
    }
    RemovedAtMostOnce(q, evs, id);
  }

  /** An event other than the close of `id` or the firing of its timer leaves `id`'s timer
      handle as it was while the toast stays listed. */
  lemma TimerSurvivesStep(q: Queue, e: Event, id: Id)
    requires Invariant(q) && Enabled(q, e) && id in q.timers
    requires e != Close(id) && e != Fire(q.timers[id])
    requires id in Ids(Step(q, e).items)
    ensures id in Step(q, e).timers && Step(q, e).timers[id] == q.timers[id]
  {
    StepKeepsInvariant(q, e);
    match e
    case Add(x, req) =>
    case Close(x) =>
    case Fire(g) =>
      assert q.pending[g].target != id;
  }

  // ---------------------------------------------------------------------------
  // The component

  /** The state of one mounted `ToastContainer`: `toasts` (React state), `timers`
      (`timersRef.current`), and the host's armed timers with its next handle. */
  class ToastContainer {
    var toasts: seq<ToastItem>
    var timers: map<Id, Handle>
    var pending: map<Handle, Timer>
    var nextHandle: nat

    function Model(): Queue
      reads this
    {
      Queue(toasts, timers, pending, nextHandle)
    }

    predicate Valid()
      reads this
    {
      Invariant(Model())
    }

    constructor ()
      ensures Valid() && Model() == Initial()
    {
      toasts, timers, pending, nextHandle := [], map[], map[], 1;
    }

    /** `addToast(req)`; `id` is the oracle's fresh id, and it is what the call returns. */
    method AddToast(id: Id, req: ToastRequest) returns (r: Id)
      requires Valid() && id !in Ids(toasts)
      modifies this
      ensures Valid()
      ensures r == id
      ensures Model() == Added(old(Model()), id, req)
      ensures toasts == old(toasts) + [ItemFor(id, req)]
    {
      ghost var next := Added(Model(), id, req);
      AddedKeepsInvariant(Model(), id, req);
      var item := ItemFor(id, req);
      toasts := toasts + [item];
      var handle := nextHandle;
      nextHandle := nextHandle + 1;
      pending := pending[handle := Timer(id, Delay(item.duration))];
      timers := timers[id := handle];
      r := id;
      assert toasts == next.items && timers == next.timers;
      assert pending == next.pending && nextHandle == next.nextHandle;
    }

    /** `removeToast(id)`. */
    method RemoveToast(id: Id)
      requires Valid()
      modifies this
      ensures Valid()
      ensures Model() == Removed(old(Model()), id)
      ensures id !in Ids(toasts) && id !in timers
    {
      RemovedKeepsInvariant(Model(), id);
      RemovedEffect(Model(), id);
      if id in timers {
        var handle := timers[id];
        pending := pending - {handle};
        timers := timers - {id};
      }
      toasts := Without(toasts, id);
    }

    /** The armed timer `h` fires: its callback is `removeToast` of the id it was armed for. */
    method Fire(h: Handle)
      requires Valid() && h in pending
      modifies this
      ensures Valid()
      ensures Model() == Fired(old(Model()), h)
      ensures Model() == Removed(old(Model()), old(pending[h].target))
    {
      FiredIsRemoved(Model(), h);
      var id := pending[h].target;
      RemoveToast(id);
      pending := pending - {h};
    }
  }
}

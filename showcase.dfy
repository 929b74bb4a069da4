/** The toast showcase page (pages/ToastShowcase.jsx): a second, page-local copy of the
    toast queue, driven by preset buttons and a custom-toast form.

    - `scheduleRemoval(id, duration)` clears the timer already recorded for the id, if
      any, arms a new one whose body filters the id out of the queue and deletes the map
      entry, and records the new handle;
    - `pushToast(message, type, duration)` appends a record with a fresh id and schedules
      its removal;
    - `handleClose(id)` clears and deletes the recorded timer, if any, and filters the id
      out of the queue.

    Unlike the container, the timer body does its removal inline rather than calling
    `handleClose`, and the delay is the duration as given (no clamping at zero). */
module Showcase {
  import opened Toasts

  const CustomFallbackMessage: string := "Custom toast"
  const CustomFallbackDuration: int := 3000

  /** The state on mount: an empty queue and no timers. */
  function Initial(): (q: Queue)
    ensures WellFormed(q) && q.items == []
  {
    Queue([], map[], map[], 1)
  }

  /** `scheduleRemoval(id, duration)`: the queue is untouched; the id's map entry names a
      newly armed timer for it with the given duration, and no armed timer is added
      for any other id. */
  function Scheduled(q: Queue, id: Id, duration: int): (r: Queue)
    ensures r.items == q.items && r.nextHandle == q.nextHandle + 1
    ensures id in r.timers
    ensures r.timers[id] in r.pending && r.pending[r.timers[id]] == Timer(id, duration)
    ensures forall h :: h in r.pending && h != r.timers[id] ==> h in q.pending && r.pending[h] == q.pending[h]
  {
    var cleared := if id in q.timers then q.pending - {q.timers[id]} else q.pending;
    var handle := q.nextHandle;
    q.(timers := q.timers[id := handle],
       pending := cleared[handle := Timer(id, duration)],
       nextHandle := handle + 1)
  }

  /** `pushToast(message, kind, duration)` with `id` from the fresh-id oracle: the record goes
      to the tail and a timer with the record's duration is armed for it. */
  function Pushed(q: Queue, id: Id, message: string, kind: string, duration: int): (r: Queue)
    ensures r.items == q.items + [ToastItem(id, message, kind, duration)]
    ensures id in r.timers && r.timers[id] in r.pending && r.pending[r.timers[id]] == Timer(id, duration)
  {
    Scheduled(q.(items := q.items + [ToastItem(id, message, kind, duration)]), id, duration)
  }

  /** `handleClose(id)`: the id is filtered out of the queue and loses its map entry; armed
      timers are only ever cleared, never added or changed. */
  function Closed(q: Queue, id: Id): (r: Queue)
    ensures r.items == Without(q.items, id)
    ensures id !in r.timers && r.timers.Keys == q.timers.Keys - {id}
    ensures forall h :: h in r.pending ==> h in q.pending && r.pending[h] == q.pending[h]
    ensures r.nextHandle == q.nextHandle
  {
    var cleared := if id in q.timers
                   then q.(pending := q.pending - {q.timers[id]}, timers := q.timers - {id})
                   else q;
    cleared.(items := Without(cleared.items, id))
  }

  /** The armed timer `h` fires: the host retires it, and its body filters its target out
      of the queue and deletes the target's map entry. */
  function Fired(q: Queue, h: Handle): (r: Queue)
    requires h in q.pending
    ensures r.items == Without(q.items, q.pending[h].target)
    ensures q.pending[h].target !in r.timers && h !in r.pending
    ensures r.pending.Keys == q.pending.Keys - {h}
  {
    var id := q.pending[h].target;
    q.(items := Without(q.items, id), timers := q.timers - {id}, pending := q.pending - {h})
  }

  /** `customMsg || 'Custom toast'`: an empty message falls back to the default text. */
  function CustomMessage(entered: string): (m: string)
    ensures m != []
    ensures entered != [] ==> m == entered
    ensures entered == [] ==> m == "Custom toast"
  {
    if entered == [] then CustomFallbackMessage else entered
  }

  /** `Number(customDuration) || 3000` on a whole number: zero falls back to 3000 ms. */
  function CustomDuration(entered: int): (d: int)
    ensures d != 0
    ensures entered != 0 ==> d == entered
    ensures entered == 0 ==> d == 3000
  {
    if entered == 0 then CustomFallbackDuration else entered
  }

  // ---------------------------------------------------------------------------
  // Lemmas

  /** Rescheduling keeps the map and the armed timers in agreement, whatever the id: the
      timer recorded before is cleared, so the id has exactly one armed timer afterwards,
      armed with the given duration, and the timers of other ids are untouched. */
  lemma ScheduledOneTimer(q: Queue, id: Id, duration: int)
    requires TimersAgree(q)
    ensures var r := Scheduled(q, id, duration);
      && TimersAgree(r)
      && id in r.timers && r.pending[r.timers[id]] == Timer(id, duration)
      && (forall h :: h in r.pending && r.pending[h].target == id ==> h == r.timers[id])
      && (forall h :: h in q.pending && q.pending[h].target != id ==>
            h in r.pending && r.pending[h] == q.pending[h])
      && r.timers.Keys == q.timers.Keys + {id}
  {
    var r := Scheduled(q, id, duration);
    var handle := q.nextHandle;
    assert handle !in q.pending;
    forall x | x in r.timers ensures r.timers[x] in r.pending && r.pending[r.timers[x]].target == x {
      if x != id {
        assert q.timers[x] in q.pending && q.timers[x] != handle;
        assert id in q.timers ==> q.timers[x] != q.timers[id];
      }
    }
    forall g | g in r.pending ensures r.pending[g].target in r.timers && r.timers[r.pending[g].target] == g {
      if g != handle {
        assert g in q.pending;
        assert q.pending[g].target != id;
      }
    }
  }

  lemma PushedKeepsInvariant(q: Queue, id: Id, message: string, kind: string, duration: int)
    requires WellFormed(q) && id !in Ids(q.items)
    ensures WellFormed(Pushed(q, id, message, kind, duration))
  {
    var t := ToastItem(id, message, kind, duration);
    DistinctAppend(q.items, t);
    IdsAppend(q.items, t);
    ScheduledOneTimer(q.(items := q.items + [t]), id, duration);
  }

  /** `pushToast` appends `{ id, message, type, duration }` at the tail of the queue, leaves
      the earlier entries as they were, and arms one timer for the new id with its duration. */
  lemma PushedAppends(q: Queue, id: Id, message: string, kind: string, duration: int)
    requires WellFormed(q) && id !in Ids(q.items)
    ensures var r := Pushed(q, id, message, kind, duration);
      && |r.items| == |q.items| + 1
      && r.items[..|q.items|] == q.items
      && r.items[|q.items|] == ToastItem(id, message, kind, duration)
      && id in r.timers && r.pending[r.timers[id]] == Timer(id, duration)
  {
    ScheduledOneTimer(q.(items := q.items + [ToastItem(id, message, kind, duration)]), id, duration);
  }

  lemma ClosedKeepsInvariant(q: Queue, id: Id)
    requires WellFormed(q)
    ensures WellFormed(Closed(q, id))
  {
    DistinctWithout(q.items, id);
    IdsWithout(q.items, id);
    if id in q.timers {
      ClearedTimersAgree(q, id);
    }
  }

  /** `handleClose(id)` takes the toast out of the queue, keeps the others in their order,
      and leaves no map entry and no armed timer for the id. */
  lemma ClosedEffect(q: Queue, id: Id)
    requires WellFormed(q)
    ensures var r := Closed(q, id);
      && id !in Ids(r.items) && id !in r.timers
      && (forall h :: h in r.pending ==> r.pending[h].target != id)
      && (forall t :: t in r.items <==> t in q.items && t.id != id)
    ensures forall before, t, after :: q.items == before + [t] + after && t.id == id ==>
      Closed(q, id).items == before + after
  {
    forall before, t, after | q.items == before + [t] + after && t.id == id
      ensures Closed(q, id).items == before + after
    {
      DistinctSplit(before, t, after);
      WithoutSplit(before, t, after);
    }
  }

  /** `handleClose` of an id that is not queued changes neither the queue nor the timer map. */
  lemma ClosedUnknownIsNoop(q: Queue, id: Id)
    requires WellFormed(q) && id !in Ids(q.items)
    ensures Closed(q, id) == q
  {
    WithoutAbsent(q.items, id);
  }

  /** The inline timer body has the same effect as `handleClose` of its target: the toast
      leaves the queue, its map entry is deleted and the other toasts and timers stay. */
  lemma FiredIsClosed(q: Queue, h: Handle)
    requires WellFormed(q) && h in q.pending
    ensures Fired(q, h) == Closed(q, q.pending[h].target)
  {
    var id := q.pending[h].target;
    assert id in q.timers && q.timers[id] == h;
  }

  lemma FiredKeepsInvariant(q: Queue, h: Handle)
    requires WellFormed(q) && h in q.pending
    ensures WellFormed(Fired(q, h))
  {
    FiredIsClosed(q, h);
    ClosedKeepsInvariant(q, q.pending[h].target);
  }

  // ---------------------------------------------------------------------------
  // The page

  /** The state of one mounted `ToastShowcase`: `queue` (React state), `timers`
      (`timersRef.current`), and the host's armed timers with its next handle. */
  class ToastShowcase {
    var queue: seq<ToastItem>
    var timers: map<Id, Handle>
    var pending: map<Handle, Timer>
    var nextHandle: nat

    function Model(): Queue
      reads this
    {
      Queue(queue, timers, pending, nextHandle)
    }

    predicate Valid()
      reads this
    {
      WellFormed(Model())
    }

    constructor ()
      ensures Valid() && Model() == Initial()
    {
      queue, timers, pending, nextHandle := [], map[], map[], 1;
    }

    /** `scheduleRemoval(id, duration)`: needs only the map and the armed timers to agree,
        since `pushToast` calls it after appending to the queue. */
    method ScheduleRemoval(id: Id, duration: int)
      requires TimersAgree(Model())
      modifies this
      ensures TimersAgree(Model())
      ensures Model() == Scheduled(old(Model()), id, duration)
      ensures forall h :: h in pending && pending[h].target == id ==> h == timers[id]
    {
      ScheduledOneTimer(Model(), id, duration);
      if id in timers {
        pending := pending - {timers[id]};
      }
      var handle := nextHandle;
      nextHandle := nextHandle + 1;
      pending := pending[handle := Timer(id, duration)];
      timers := timers[id := handle];
    }

    /** `pushToast(message, kind, duration)`; `id` is the oracle's fresh id. */
    method PushToast(id: Id, message: string, kind: string, duration: int)
      requires Valid() && id !in Ids(queue)
      modifies this
      ensures Valid()
      ensures Model() == Pushed(old(Model()), id, message, kind, duration)
      ensures queue == old(queue) + [ToastItem(id, message, kind, duration)]
    {
      PushedKeepsInvariant(Model(), id, message, kind, duration);
      var item := ToastItem(id, message, kind, duration);
      queue := queue + [item];
      ScheduleRemoval(id, duration);
    }

    /** `handleClose(id)`. */
    method HandleClose(id: Id)
      requires Valid()
      modifies this
      ensures Valid()
      ensures Model() == Closed(old(Model()), id)
      ensures id !in Ids(queue) && id !in timers
    {
      ClosedKeepsInvariant(Model(), id);
      ClosedEffect(Model(), id);
      if id in timers {
        var handle := timers[id];
        pending := pending - {handle};
        timers := timers - {id};
      }
      queue := Without(queue, id);
    }

    /** The armed timer `h` fires and runs its inline body. */
    method Fire(h: Handle)
      requires Valid() && h in pending
      modifies this
      ensures Valid()
      ensures Model() == Fired(old(Model()), h)
      ensures Model() == Closed(old(Model()), old(pending[h].target))
    {
      FiredIsClosed(Model(), h);
      FiredKeepsInvariant(Model(), h);
      var id := pending[h].target;
      pending := pending - {h};
      queue := Without(queue, id);
      timers := timers - {id};
    }

    /** The "Show custom toast" button, with the form's message, type and duration. */
    method ShowCustomToast(id: Id, customMsg: string, customType: string, customDuration: int)
      requires Valid() && id !in Ids(queue)
      modifies this
      ensures Valid()
      ensures Model() == Pushed(old(Model()), id, CustomMessage(customMsg), customType,
                                CustomDuration(customDuration))
    {
      var dur := CustomDuration(customDuration);
      PushToast(id, CustomMessage(customMsg), customType, dur);
    }
  }
}

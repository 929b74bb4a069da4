/** Records and operations shared by the two toast queues of the front end
    (the context-provided container and the showcase page): the toast record,
    the one-shot timer record, the state both queues keep, and removal of a
    toast from the ordered list by id (`Array.prototype.filter` on the id). */
module Toasts {

  /** Toast ids are opaque strings (random base-36 text followed by a timestamp). */
  type Id = string

  /** A timer handle as returned by `setTimeout`: a natural number; the handles the host gives
      out are positive (see `TimersAgree`). */
  type Handle = nat

  datatype Option<T> = None | Some(value: T) {
    /** The JavaScript default-parameter rule: the default applies when the value is absent. */
    function GetOr(default: T): T {
      match this
      case Some(v) => v
      case None => default
    }
  }

  /** One displayed toast: `{ id, message, type, duration }` (`type` is a keyword here, so `kind`). */
  datatype ToastItem = ToastItem(id: Id, message: string, kind: string, duration: int)

  /** One armed one-shot timer: the toast id its callback removes and the delay it was armed with. */
  datatype Timer = Timer(target: Id, delay: int)

  /** The state a toast queue works on: the ordered list of toasts (oldest first), the map
      from toast id to timer handle kept by the component, the host's table of timers that
      are armed and have not fired or been cleared, and the next handle the host gives out. */
  datatype Queue = Queue(items: seq<ToastItem>, timers: map<Id, Handle>,
                         pending: map<Handle, Timer>, nextHandle: nat)

  /** The set of ids in a list of toasts. */
  function Ids(ts: seq<ToastItem>): set<Id> {
    set t | t in ts :: t.id
  }

  /** No two toasts in the list share an id. */
  predicate DistinctIds(ts: seq<ToastItem>) {
    ts == [] || (ts[0].id !in Ids(ts[1..]) && DistinctIds(ts[1..]))
  }

  /** `ts.filter((t) => t.id !== id)`: the toasts whose id differs from `id`, in their order. */
  function Without(ts: seq<ToastItem>, id: Id): (r: seq<ToastItem>)
    ensures forall t :: t in r <==> t in ts && t.id != id
    ensures id !in Ids(r)
    ensures |r| <= |ts|
  {
    if ts == [] then []
    else if ts[0].id == id then Without(ts[1..], id)
    else [ts[0]] + Without(ts[1..], id)
  }

  /** The component's timer map and the host's armed timers are inverse to each other:
      every id in the map has exactly the one armed timer recorded for it, every armed
      timer is the one recorded for its target, and every handle was given out already. */
  predicate TimersAgree(q: Queue) {
    && 1 <= q.nextHandle
    && (forall id :: id in q.timers ==> q.timers[id] in q.pending && q.pending[q.timers[id]].target == id)
    && (forall h :: h in q.pending ==> q.pending[h].target in q.timers && q.timers[q.pending[h].target] == h)
    && (forall h :: h in q.pending ==> 1 <= h < q.nextHandle)
  }

  /** The invariant both queues keep: ids are unique, the timer map's keys are exactly the
      ids in the list, and the timer map agrees with the armed timers. */
  predicate WellFormed(q: Queue) {
    && DistinctIds(q.items)
    && q.timers.Keys == Ids(q.items)
    && TimersAgree(q)
  }

  lemma IdsAppend(ts: seq<ToastItem>, t: ToastItem)
    ensures Ids(ts + [t]) == Ids(ts) + {t.id}
  {
    assert forall u :: u in ts + [t] <==> u in ts || u == t;
  }

  lemma IdsWithout(ts: seq<ToastItem>, id: Id)
    ensures Ids(Without(ts, id)) == Ids(ts) - {id}
  {
    var r := Without(ts, id);
    forall x | x in Ids(ts) - {id} ensures x in Ids(r) {
      var t :| t in ts && t.id == x;
      assert t in r;
    }
  }

  /** Appending a toast with a new id keeps the ids unique. */
  lemma {:induction false} DistinctAppend(ts: seq<ToastItem>, t: ToastItem)
    requires DistinctIds(ts) && t.id !in Ids(ts)
    ensures DistinctIds(ts + [t])
  {
    if ts != [] {
      assert (ts + [t])[1..] == ts[1..] + [t];
      assert t.id !in Ids(ts[1..]) by { assert forall u :: u in ts[1..] ==> u in ts; }
      DistinctAppend(ts[1..], t);
      IdsAppend(ts[1..], t);
    }
  }

  /** Removing by id keeps the ids unique. */
  lemma {:induction false} DistinctWithout(ts: seq<ToastItem>, id: Id)
    requires DistinctIds(ts)
    ensures DistinctIds(Without(ts, id))
  {
    if ts != [] {
      DistinctWithout(ts[1..], id);
      IdsWithout(ts[1..], id);
    }
  }

  /** Filtering out an id that is absent leaves the list as it was. */
  lemma {:induction false} WithoutAbsent(ts: seq<ToastItem>, id: Id)
    requires id !in Ids(ts)
    ensures Without(ts, id) == ts
  {
    if ts != [] {
      assert ts[0] in ts;
      assert forall u :: u in ts[1..] ==> u in ts;
      WithoutAbsent(ts[1..], id);
    }
  }

  /** Filtering distributes over concatenation, so it keeps the relative order of what it keeps. */
  lemma {:induction false} WithoutAppend(a: seq<ToastItem>, b: seq<ToastItem>, id: Id)
    ensures Without(a + b, id) == Without(a, id) + Without(b, id)
  {
    if a == [] {
      assert a + b == b;
    } else {
      assert (a + b)[0] == a[0];
      assert (a + b)[1..] == a[1..] + b;
      WithoutAppend(a[1..], b, id);
    }
  }

  /** Removing twice is removing once. */
  lemma WithoutIdempotent(ts: seq<ToastItem>, id: Id)
    ensures Without(Without(ts, id), id) == Without(ts, id)
  {
    WithoutAbsent(Without(ts, id), id);
  }

  /** Removing the one toast with a given id from the middle of a list leaves the toasts
      before it and the toasts after it exactly as they were, in the same order. */
  lemma WithoutSplit(a: seq<ToastItem>, t: ToastItem, b: seq<ToastItem>)
    requires t.id !in Ids(a) && t.id !in Ids(b)
    ensures Without(a + [t] + b, t.id) == a + b
  {
    var id := t.id;
    var single := Without([t], id);
    assert single == [] by { assert [t][1..] == []; }
    assert Without(a + [t], id) == a by {
      WithoutAppend(a, [t], id);
      WithoutAbsent(a, id);
      assert a + single == a;
    }
    WithoutAppend(a + [t], b, id);
    WithoutAbsent(b, id);
  }

  /** Removals of different ids may happen in either order with the same result. */
  lemma {:induction false} WithoutCommutes(ts: seq<ToastItem>, x: Id, y: Id)
    ensures Without(Without(ts, x), y) == Without(Without(ts, y), x)
  {
    if ts != [] {
      WithoutCommutes(ts[1..], x, y);
      var t := ts[0];
      var rest := ts[1..];
      assert ts == [t] + rest;
      WithoutAppend([t], rest, x);
      WithoutAppend([t], rest, y);
      WithoutAppend(Without([t], x), Without(rest, x), y);
      WithoutAppend(Without([t], y), Without(rest, y), x);
    }
  }

  /** Clearing the timer of a listed id and deleting its map entry keeps the map and the
      armed timers in agreement. */
  lemma ClearedTimersAgree(q: Queue, id: Id)
    requires TimersAgree(q) && id in q.timers
    ensures TimersAgree(q.(pending := q.pending - {q.timers[id]}, timers := q.timers - {id}))
  {
    var h := q.timers[id];
    var c := q.(pending := q.pending - {h}, timers := q.timers - {id});
    forall x | x in c.timers ensures c.timers[x] in c.pending && c.pending[c.timers[x]].target == x {
      assert q.timers[x] != h;
    }
    forall g | g in c.pending ensures c.pending[g].target in c.timers && c.timers[c.pending[g].target] == g {
      assert q.pending[g].target != id;
    }
  }

  /** Arming a timer with the next handle for an id the map does not know, and recording
      that handle, keeps the map and the armed timers in agreement. */
  lemma ArmedTimersAgree(q: Queue, id: Id, delay: int)
    requires TimersAgree(q) && id !in q.timers
    ensures TimersAgree(q.(timers := q.timers[id := q.nextHandle],
                           pending := q.pending[q.nextHandle := Timer(id, delay)],
                           nextHandle := q.nextHandle + 1))
  {
    var h := q.nextHandle;
    var r := q.(timers := q.timers[id := h], pending := q.pending[h := Timer(id, delay)],
                nextHandle := h + 1);
    forall x | x in r.timers ensures r.timers[x] in r.pending && r.pending[r.timers[x]].target == x {
      if x != id {
        assert q.timers[x] in q.pending && q.timers[x] != h;
      }
    }
    forall g | g in r.pending ensures r.pending[g].target in r.timers && r.timers[r.pending[g].target] == g {
      if g != h {
        assert q.pending[g].target != id;
      }
    }
  }

  /** In a list with unique ids, a listed toast's id occurs neither before nor after it. */
  lemma {:induction false} DistinctSplit(before: seq<ToastItem>, t: ToastItem, after: seq<ToastItem>)
    requires DistinctIds(before + [t] + after)
    ensures t.id !in Ids(before) && t.id !in Ids(after)
  {
    var ts := before + [t] + after;
    if before == [] {
      assert ts[1..] == after;
    } else {
      assert ts[0] == before[0];
      assert ts[1..] == before[1..] + [t] + after;
      DistinctSplit(before[1..], t, after);
      assert t in ts[1..];
      assert Ids(before) == {before[0].id} + Ids(before[1..]) by {
        assert forall u :: u in before <==> u == before[0] || u in before[1..];
      }
    }
  }
}

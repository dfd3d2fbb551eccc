/** The process-wide toast store: the current toast list (`memoryState`), the
    removal-timer registry (`toastTimeouts`), the timers pending on the event
    loop, the id counter and the listener list, with `dispatch`, `toast()`,
    the handle's `dismiss`/`update`, and `useToast`'s subscribe/unsubscribe.
    A timer is an entry in `timers` until its explicit fire method runs. */
module ToastStore {
  import opened Wrappers
  import opened ToastModel
  import opened ToastIds

  /** A registered listener (each `useToast` instance's `setState`). */
  type ListenerId = nat

  /** One call `listener(memoryState)` made by `dispatch`. */
  datatype Delivery = Delivery(listener: ListenerId, toasts: seq<ToasterToast>)

  /** A callback pending on the event loop. */
  datatype Timer =
    | RemoveAfterDelay(toastId: string, delay: int)  // set by `addToRemoveQueue`
    | AutoDismiss(toastId: string, delay: int)       // set by `toast()` for a positive duration

  /** The argument of `toast()`: a toast without its id. Its `open` and
      `onOpenChange`, if any, are overwritten by `toast()`, so they are not kept. */
  datatype ToastProps = ToastProps(
    title: Option<string>,
    description: Option<string>,
    className: Option<string>,
    duration: Option<int>)

  /** The record `toast()` adds for `props` under `id`. */
  function NewToast(id: string, props: ToastProps): (t: ToasterToast)
    ensures t.id == id && t.open == Some(true) && t.onOpenChange == Some(id)
    ensures t.title == props.title && t.description == props.description
    ensures t.className == props.className && t.duration == props.duration
  {
    ToasterToast(id, props.title, props.description, props.className, props.duration, Some(true), Some(id))
  }

  /** `props.duration && props.duration > 0`: whether `toast()` arms an auto-dismiss. */
  predicate ArmsAutoDismiss(props: ToastProps) {
    props.duration.Some? && props.duration.value > 0
  }

  /** The calls one dispatch makes: each listener, in list order, with `s`. */
  function Fanout(ls: seq<ListenerId>, s: seq<ToasterToast>): (r: seq<Delivery>)
    ensures |r| == |ls|
    ensures forall i | 0 <= i < |ls| :: r[i] == Delivery(ls[i], s)
  {
    seq(|ls|, i requires 0 <= i < |ls| => Delivery(ls[i], s))
  }

  /** Fanning out over a list is fanning out over its parts in turn. */
  lemma FanoutConcat(a: seq<ListenerId>, b: seq<ListenerId>, s: seq<ToasterToast>)
    ensures Fanout(a + b, s) == Fanout(a, s) + Fanout(b, s)
  {
  }

  /** `listeners.splice(listeners.indexOf(l), 1)` when `l` is present. */
  function RemoveFirst(ls: seq<ListenerId>, l: ListenerId): (r: seq<ListenerId>)
    ensures l in ls ==> |r| == |ls| - 1 && multiset(r) == multiset(ls) - multiset{l}
    ensures l !in ls ==> r == ls
  {
    if ls == [] then []
    else
      assert ls == [ls[0]] + ls[1..];
      if ls[0] == l then ls[1..] else [ls[0]] + RemoveFirst(ls[1..], l)
  }

  /** Removing the first occurrence cuts the list at that index. */
  lemma {:induction false} RemoveFirstAt(ls: seq<ListenerId>, l: ListenerId, i: nat)
    requires i < |ls| && ls[i] == l && l !in ls[..i]
    ensures RemoveFirst(ls, l) == ls[..i] + ls[i + 1..]
  {
    if i > 0 {
      assert ls[0] == ls[..i][0] && ls[0] != l;
      assert ls[1..][..i - 1] == ls[1..i];
      RemoveFirstAt(ls[1..], l, i - 1);
      assert ls[1..][i..] == ls[i + 1..];
      assert ls[..i] == [ls[0]] + ls[1..i];
    }
  }

  /** Subscribing a new listener and then unsubscribing it restores the list. */
  lemma {:induction false} SubscribeThenUnsubscribe(ls: seq<ListenerId>, l: ListenerId)
    requires l !in ls
    ensures RemoveFirst(ls + [l], l) == ls
  {
    assert (ls + [l])[..|ls|] == ls;
    RemoveFirstAt(ls + [l], l, |ls|);
  }

  /** `listeners.indexOf(l)`: the first index holding `l`, or -1. */
  method IndexOf(ls: seq<ListenerId>, l: ListenerId) returns (index: int)
    ensures -1 <= index < |ls|
    ensures index == -1 <==> l !in ls
    ensures 0 <= index ==> ls[index] == l && l !in ls[..index]
  {
    index := 0;
    while index < |ls|
      invariant 0 <= index <= |ls|
      invariant l !in ls[..index]
    {
      if ls[index] == l {
        return;
      }
      assert ls[..index + 1] == ls[..index] + [ls[index]];
      index := index + 1;
    }
    assert ls[..index] == ls;
    index := -1;
  }

  /** The set of ids in a list. */
  function IdSet(ids: seq<string>): set<string> {
    set id | id in ids
  }

  /** How scheduling removals for `ids` moved the registry from `q0` to `q`, the
      pending timers from `t0` to `t` and the next handle from `n0` to `n`: the
      registry gains exactly `ids`, no entry is re-armed, every new timer is a
      removal for a newly registered id, and no handle is spent when every id
      was registered already. Every new timer waits `TOAST_REMOVE_DELAY` ms. */
  ghost predicate Scheduled(q0: map<string, nat>, t0: map<nat, Timer>, n0: nat,
                            q: map<string, nat>, t: map<nat, Timer>, n: nat, ids: set<string>)
  {
    && (ids <= q0.Keys ==> n == n0)
    && q.Keys == q0.Keys + ids
    && (forall id | id in q0 :: q[id] == q0[id])
    && t0.Keys <= t.Keys
    && (forall h | h in t0 :: t[h] == t0[h])
    && (forall h | h in t && h !in t0 :: t[h].RemoveAfterDelay? && t[h].delay == TOAST_REMOVE_DELAY && t[h].toastId in ids && t[h].toastId !in q0)
  }

  /** Scheduling ids that are all already registered changes nothing: this is
      why dismissing twice leaves one pending removal. */
  lemma ScheduledRegisteredIsNoOp(q0: map<string, nat>, t0: map<nat, Timer>, n0: nat,
                                  q: map<string, nat>, t: map<nat, Timer>, n: nat, ids: set<string>)
    requires Scheduled(q0, t0, n0, q, t, n, ids)
    requires ids <= q0.Keys
    ensures q == q0 && t == t0 && n == n0
  {
    assert q.Keys == q0.Keys;
    assert t.Keys == t0.Keys;
  }

  class Store {
    /** `memoryState.toasts`. */
    var toasts: seq<ToasterToast>
    /** `toastTimeouts`: id -> handle of its pending removal timer. */
    var toastTimeouts: map<string, nat>
    /** The callbacks pending on the event loop, by handle. */
    var timers: map<nat, Timer>
    /** The handle the next `setTimeout` returns. */
    var nextHandle: nat
    /** `count`, the id counter. */
    var count: nat
    /** `listeners`, in registration order. */
    var listeners: seq<ListenerId>
    /** Every listener call made so far, in order. */
    var deliveries: seq<Delivery>

    /** The store's invariant: the list is within `TOAST_LIMIT`, and the registry
        and the pending removal timers match one to one. */
    ghost predicate Valid()
      reads this
    {
      && |toasts| <= TOAST_LIMIT
      && count < MAX_SAFE_INTEGER
      && (forall h | h in timers :: h < nextHandle)
      && (forall id | id in toastTimeouts ::
            toastTimeouts[id] in timers && timers[toastTimeouts[id]] == RemoveAfterDelay(id, TOAST_REMOVE_DELAY))
      && (forall h | h in timers && timers[h].RemoveAfterDelay? ::
            timers[h].toastId in toastTimeouts && toastTimeouts[timers[h].toastId] == h)
    }

    /** The module's initial state: `memoryState = { toasts: [] }`, `count = 0`. */
    constructor ()
      ensures Valid()
      ensures toasts == [] && toastTimeouts == map[] && timers == map[] && nextHandle == 0
      ensures count == 0 && listeners == [] && deliveries == []
    {
      toasts := [];
      toastTimeouts := map[];
      timers := map[];
      nextHandle := 0;
      count := 0;
      listeners := [];
      deliveries := [];
    }

    /** `genId`: advance the counter and return its decimal text. */
    method GenId() returns (id: string)
      requires Valid()
      modifies this`count
      ensures Valid()
      ensures count == NextCount(old(count)) && id == DecimalString(count)
    {
      count := NextCount(count);
      id := DecimalString(count);
    }

    /** `setTimeout`: queue a callback and return its handle. */
    method SetTimeout(t: Timer) returns (h: nat)
      modifies this`timers, this`nextHandle
      ensures h == old(nextHandle) && nextHandle == h + 1
      ensures timers == old(timers)[h := t]
    {
      h := nextHandle;
      timers := timers[h := t];
      nextHandle := nextHandle + 1;
    }

    /** `addToRemoveQueue`: arm one removal timer, `TOAST_REMOVE_DELAY` ms long,
        for an id that has none. */
    method AddToRemoveQueue(toastId: string)
      requires Valid()
      modifies this`toastTimeouts, this`timers, this`nextHandle
      ensures Valid()
      ensures toastId in old(toastTimeouts) ==>
        toastTimeouts == old(toastTimeouts) && timers == old(timers) && nextHandle == old(nextHandle)
      ensures toastId !in old(toastTimeouts) ==>
        && toastTimeouts == old(toastTimeouts)[toastId := old(nextHandle)]
        && timers == old(timers)[old(nextHandle) := RemoveAfterDelay(toastId, TOAST_REMOVE_DELAY)]
        && nextHandle == old(nextHandle) + 1
    {
      if toastId in toastTimeouts {
        return;
      }
      var h := SetTimeout(RemoveAfterDelay(toastId, TOAST_REMOVE_DELAY));
      toastTimeouts := toastTimeouts[toastId := h];
    }

    /** `reducer(memoryState, action)`: the next toast list, after queueing the
        removals a DISMISS_TOAST asks for. */
    method Reducer(a: Action) returns (next: seq<ToasterToast>)
      requires Valid()
      modifies this`toastTimeouts, this`timers, this`nextHandle
      ensures Valid()
      ensures next == Reduce(toasts, a)
      ensures Scheduled(old(toastTimeouts), old(timers), old(nextHandle), toastTimeouts, timers, nextHandle, IdSet(ScheduledRemovals(toasts, a)))
    {
      if a.DismissToast? {
        var toastId := a.toastId;
        if toastId.Some? && toastId.value != "" {
          AddToRemoveQueue(toastId.value);
          assert IdSet([toastId.value]) == {toastId.value};
        } else {
          var ids := Ids(toasts);
          for i := 0 to |toasts|
            invariant Valid()
            invariant Scheduled(old(toastTimeouts), old(timers), old(nextHandle), toastTimeouts, timers, nextHandle, IdSet(ids[..i]))
          {
            AddToRemoveQueue(toasts[i].id);
            assert IdSet(ids[..i + 1]) == IdSet(ids[..i]) + {toasts[i].id} by {
              assert ids[..i + 1] == ids[..i] + [ids[i]];
            }
          }
          assert ids[..|toasts|] == ids;
        }
      } else {
        assert IdSet([]) == {};
      }
      next := Reduce(toasts, a);
    }

    /** `dispatch`: store `reducer(memoryState, action)`, then call every
        listener, in order, with the new state. */
    method Dispatch(a: Action)
      requires Valid()
      modifies this
      ensures Valid()
      ensures toasts == Reduce(old(toasts), a)
      ensures Scheduled(old(toastTimeouts), old(timers), old(nextHandle), toastTimeouts, timers, nextHandle, IdSet(ScheduledRemovals(old(toasts), a)))
      ensures deliveries == old(deliveries) + Fanout(listeners, toasts)
      ensures listeners == old(listeners) && count == old(count)
    {
      ReduceKeepsLimit(toasts, a);
      var next := Reducer(a);
      toasts := next;
      ghost var q, t, n := toastTimeouts, timers, nextHandle;
      for i := 0 to |listeners|
        invariant toasts == next && toastTimeouts == q && timers == t && nextHandle == n
        invariant listeners == old(listeners) && count == old(count)
        invariant deliveries == old(deliveries) + Fanout(listeners[..i], toasts)
      {
        assert listeners[..i + 1] == listeners[..i] + [listeners[i]];
        FanoutConcat(listeners[..i], [listeners[i]], toasts);
        deliveries := deliveries + [Delivery(listeners[i], toasts)];
      }
      assert listeners[..|listeners|] == listeners;
    }

    /** `toast(props)`: add a fresh open toast at the front and arm its
        auto-dismiss when the duration is positive; returns the new id. */
    method Toast(props: ToastProps) returns (id: string)
      requires Valid()
      modifies this
      ensures Valid()
      ensures count == NextCount(old(count)) && id == DecimalString(count)
      ensures toasts == Added(old(toasts), NewToast(id, props))
      ensures toasts[0].id == id && toasts[0].open == Some(true)
      ensures toastTimeouts == old(toastTimeouts)
      ensures ArmsAutoDismiss(props) ==>
        timers == old(timers)[old(nextHandle) := AutoDismiss(id, props.duration.value)]
        && nextHandle == old(nextHandle) + 1
      ensures !ArmsAutoDismiss(props) ==> timers == old(timers) && nextHandle == old(nextHandle)
      ensures listeners == old(listeners)
      ensures deliveries == old(deliveries) + Fanout(listeners, toasts)
    {
      id := GenId();
      Dispatch(AddToast(NewToast(id, props)));
      assert IdSet([]) == {};
      ScheduledRegisteredIsNoOp(old(toastTimeouts), old(timers), old(nextHandle), toastTimeouts, timers, nextHandle, {});
      if ArmsAutoDismiss(props) {
        var h := SetTimeout(AutoDismiss(id, props.duration.value));
      }
    }

    /** `dismiss(toastId?)` of `useToast`, and the handle's `dismiss()` with its id. */
    method Dismiss(toastId: Option<string>)
      requires Valid()
      modifies this
      ensures Valid()
      ensures toasts == Dismissed(old(toasts), toastId)
      ensures Scheduled(old(toastTimeouts), old(timers), old(nextHandle), toastTimeouts, timers, nextHandle,
                        IdSet(ScheduledRemovals(old(toasts), DismissToast(toastId))))
      ensures deliveries == old(deliveries) + Fanout(listeners, toasts)
      ensures listeners == old(listeners) && count == old(count)
    {
      Dispatch(DismissToast(toastId));
    }

    /** The handle's `update(props)`: UPDATE_TOAST with the handle's id. */
    method Update(id: string, patch: Patch)
      requires Valid()
      modifies this
      ensures Valid()
      ensures toasts == Updated(old(toasts), patch.(id := Some(id)))
      ensures toastTimeouts == old(toastTimeouts) && timers == old(timers) && nextHandle == old(nextHandle)
      ensures deliveries == old(deliveries) + Fanout(listeners, toasts)
      ensures listeners == old(listeners) && count == old(count)
    {
      Dispatch(UpdateToast(patch.(id := Some(id))));
      assert IdSet([]) == {};
      ScheduledRegisteredIsNoOp(old(toastTimeouts), old(timers), old(nextHandle), toastTimeouts, timers, nextHandle, {});
    }

    /** The `onOpenChange` hook of a rendered toast: closing it dismisses the id
        the hook was made for. */
    method OpenChange(t: ToasterToast, open: bool)
      requires Valid()
      modifies this
      ensures Valid()
      ensures !open && t.onOpenChange.Some? ==>
        && toasts == Dismissed(old(toasts), t.onOpenChange)
        && Scheduled(old(toastTimeouts), old(timers), old(nextHandle), toastTimeouts, timers, nextHandle,
                     IdSet(ScheduledRemovals(old(toasts), DismissToast(t.onOpenChange))))
        && deliveries == old(deliveries) + Fanout(listeners, toasts)
      ensures open || t.onOpenChange.None? ==>
        && toasts == old(toasts) && toastTimeouts == old(toastTimeouts) && timers == old(timers)
        && nextHandle == old(nextHandle) && deliveries == old(deliveries)
      ensures listeners == old(listeners) && count == old(count)
    {
      if !open && t.onOpenChange.Some? {
        Dismiss(t.onOpenChange);
      }
    }

    /** The removal timer of `toastId` fires: it leaves the registry, then
        REMOVE_TOAST is dispatched for that id. */
    method FireRemoval(toastId: string)
      requires Valid() && toastId in toastTimeouts
      modifies this
      ensures Valid()
      ensures toastTimeouts == old(toastTimeouts) - {toastId}
      ensures timers == old(timers) - {old(toastTimeouts)[toastId]} && nextHandle == old(nextHandle)
      ensures toasts == Removed(old(toasts), Some(toastId))
      ensures deliveries == old(deliveries) + Fanout(listeners, toasts)
      ensures listeners == old(listeners) && count == old(count)
    {
      var h := toastTimeouts[toastId];
      timers := timers - {h};
      toastTimeouts := toastTimeouts - {toastId};
      ghost var q, t, n := toastTimeouts, timers, nextHandle;
      Dispatch(RemoveToast(Some(toastId)));
      assert IdSet([]) == {};
      ScheduledRegisteredIsNoOp(q, t, n, toastTimeouts, timers, nextHandle, {});
    }

    /** The auto-dismiss timer with handle `h` fires: it dismisses its id. */
    method FireAutoDismiss(h: nat)
      requires Valid() && h in timers && timers[h].AutoDismiss?
      modifies this
      ensures Valid()
      ensures toasts == Dismissed(old(toasts), Some(old(timers)[h].toastId))
      ensures Scheduled(old(toastTimeouts), old(timers) - {h}, old(nextHandle), toastTimeouts, timers, nextHandle,
                        IdSet(ScheduledRemovals(old(toasts), DismissToast(Some(old(timers)[h].toastId)))))
      ensures deliveries == old(deliveries) + Fanout(listeners, toasts)
      ensures listeners == old(listeners) && count == old(count)
    {
      var id := timers[h].toastId;
      timers := timers - {h};
      Dismiss(Some(id));
    }

    /** `useToast`'s effect: `listeners.push(setState)`. */
    method Subscribe(l: ListenerId)
      requires Valid()
      modifies this`listeners
      ensures Valid()
      ensures listeners == old(listeners) + [l]
    {
      listeners := listeners + [l];
    }

    /** `useToast`'s cleanup: remove the first occurrence of the listener, if any. */
    method Unsubscribe(l: ListenerId)
      requires Valid()
      modifies this`listeners
      ensures Valid()
      ensures listeners == RemoveFirst(old(listeners), l)
    {
      var index := IndexOf(listeners, l);
      if index > -1 {
        RemoveFirstAt(listeners, l, index);
        listeners := listeners[..index] + listeners[index + 1..];
      }
    }
  }

  /** In a valid store no id has two pending removal timers. */
  lemma AtMostOneRemovalTimer(st: Store, h1: nat, h2: nat, id: string)
    requires st.Valid()
    requires h1 in st.timers && st.timers[h1].RemoveAfterDelay? && st.timers[h1].toastId == id
    requires h2 in st.timers && st.timers[h2].RemoveAfterDelay? && st.timers[h2].toastId == id
    ensures h1 == h2
  {
  }
}

/** The toast records, the actions on them, and the pure part of the reducer:
    how each action turns the ordered toast list into the next one, and which
    ids a DISMISS_TOAST action hands to the removal queue. */
module ToastModel {
  import opened Wrappers

  /** `TOAST_LIMIT`: at most this many toasts are kept. */
  const TOAST_LIMIT: nat := 1

  /** `TOAST_REMOVE_DELAY`: milliseconds between closing a toast and purging it. */
  const TOAST_REMOVE_DELAY: nat := 2000

  /** One toast. The display payloads are opaque strings; `onOpenChange` is the
      id that the toast's close hook dismisses (the only hook the store installs),
      `None` when the toast carries no hook. */
  datatype ToasterToast = ToasterToast(
    id: string,
    title: Option<string>,
    description: Option<string>,
    className: Option<string>,
    duration: Option<int>,
    open: Option<bool>,
    onOpenChange: Option<string>)

  /** A key of a partial object: absent (`Keep`) or present with a value, which
      may itself be `None` for an explicit `undefined`. */
  datatype Field<T> = Keep | Set(value: T)

  /** `Partial<ToasterToast>` as carried by UPDATE_TOAST. */
  datatype Patch = Patch(
    id: Option<string>,
    title: Field<Option<string>>,
    description: Field<Option<string>>,
    className: Field<Option<string>>,
    duration: Field<Option<int>>,
    open: Field<Option<bool>>)

  datatype Action =
    | AddToast(toast: ToasterToast)
    | UpdateToast(patch: Patch)
    | DismissToast(toastId: Option<string>)
    | RemoveToast(toastId: Option<string>)

  /** The value a spread `{...t, ...patch}` leaves for one key. */
  function Spread<T>(f: Field<T>, current: T): T {
    match f
    case Keep => current
    case Set(v) => v
  }

  /** `{ ...t, ...patch }` for a patch whose id equals `t.id`. */
  function Merge(t: ToasterToast, p: Patch): (r: ToasterToast)
    ensures r.id == t.id && r.onOpenChange == t.onOpenChange
  {
    ToasterToast(t.id,
      Spread(p.title, t.title),
      Spread(p.description, t.description),
      Spread(p.className, t.className),
      Spread(p.duration, t.duration),
      Spread(p.open, t.open),
      t.onOpenChange)
  }

  /** The patch that names `id` and sets nothing else. */
  function EmptyPatch(id: Option<string>): Patch {
    Patch(id, Keep, Keep, Keep, Keep, Keep)
  }

  function Min(a: nat, b: nat): nat { if a <= b then a else b }

  /** The ids of a toast list, in order. */
  function Ids(s: seq<ToasterToast>): (ids: seq<string>)
    ensures |ids| == |s|
  {
    seq(|s|, i requires 0 <= i < |s| => s[i].id)
  }

  /** ADD_TOAST: `[toast, ...toasts].slice(0, TOAST_LIMIT)`. */
  function Added(s: seq<ToasterToast>, t: ToasterToast): (r: seq<ToasterToast>)
    ensures 1 <= |r| <= TOAST_LIMIT && |r| == Min(TOAST_LIMIT, |s| + 1)
    ensures r[0] == t
    ensures r <= [t] + s
  {
    ([t] + s)[..Min(TOAST_LIMIT, |s| + 1)]
  }

  /** Whether UPDATE_TOAST's `t.id === action.toast.id` holds. */
  predicate Targets(p: Patch, t: ToasterToast) {
    p.id == Some(t.id)
  }

  /** UPDATE_TOAST: merge the patch into every toast whose id it names. */
  function Updated(s: seq<ToasterToast>, p: Patch): (r: seq<ToasterToast>)
    ensures |r| == |s| && Ids(r) == Ids(s)
  {
    seq(|s|, i requires 0 <= i < |s| => if Targets(p, s[i]) then Merge(s[i], p) else s[i])
  }

  /** Whether DISMISS_TOAST's `t.id === toastId || toastId === undefined` holds. */
  predicate Closes(toastId: Option<string>, t: ToasterToast) {
    toastId == None || toastId == Some(t.id)
  }

  /** The list part of DISMISS_TOAST: the targeted toasts get `open: false`. */
  function Dismissed(s: seq<ToasterToast>, toastId: Option<string>): (r: seq<ToasterToast>)
    ensures |r| == |s| && Ids(r) == Ids(s)
  {
    seq(|s|, i requires 0 <= i < |s| => if Closes(toastId, s[i]) then s[i].(open := Some(false)) else s[i])
  }

  /** `toasts.filter((t) => t.id !== toastId)`. */
  function WithoutId(s: seq<ToasterToast>, toastId: string): (r: seq<ToasterToast>)
    ensures |r| <= |s|
    ensures forall t | t in r :: t in s && t.id != toastId
  {
    if s == [] then []
    else if s[0].id != toastId then [s[0]] + WithoutId(s[1..], toastId)
    else WithoutId(s[1..], toastId)
  }

  /** REMOVE_TOAST: drop one id, or everything when no id is given. */
  function Removed(s: seq<ToasterToast>, toastId: Option<string>): (r: seq<ToasterToast>)
    ensures |r| <= |s|
    ensures forall t | t in r :: t in s && toastId.Some? && t.id != toastId.value
  {
    match toastId
    case None => []
    case Some(x) => WithoutId(s, x)
  }

  /** The new toast list the reducer returns. */
  function Reduce(s: seq<ToasterToast>, a: Action): (r: seq<ToasterToast>)
    ensures a.AddToast? ==> 1 <= |r| <= TOAST_LIMIT && r[0] == a.toast
    ensures a.UpdateToast? || a.DismissToast? ==> Ids(r) == Ids(s)
    ensures a.RemoveToast? ==> |r| <= |s|
  {
    match a
    case AddToast(t) => Added(s, t)
    case UpdateToast(p) => Updated(s, p)
    case DismissToast(toastId) => Dismissed(s, toastId)
    case RemoveToast(toastId) => Removed(s, toastId)
  }

  /** The ids the reducer passes to `addToRemoveQueue`, in call order. DISMISS_TOAST
      tests `if (toastId)`, so the empty string falls to the dismiss-all branch. */
  function ScheduledRemovals(s: seq<ToasterToast>, a: Action): (ids: seq<string>)
    ensures forall x | x in ids :: x in Ids(s) || (a.DismissToast? && a.toastId == Some(x))
  {
    match a
    case DismissToast(toastId) =>
      if toastId.Some? && toastId.value != "" then [toastId.value] else Ids(s)
    case _ => []
  }

  // ---------------------------------------------------------------------------
  // ADD_TOAST

  /** With the configured limit of 1, adding leaves exactly the new toast. */
  lemma AddedKeepsOnlyNewest(s: seq<ToasterToast>, t: ToasterToast)
    ensures Added(s, t) == [t]
  {
  }

  /** Applying ADD_TOAST to a list folds left over the toasts in call order. */
  function AddedAll(s: seq<ToasterToast>, ts: seq<ToasterToast>): seq<ToasterToast>
    decreases |ts|
  {
    if ts == [] then s else Added(AddedAll(s, ts[..|ts| - 1]), ts[|ts| - 1])
  }

  /** For every non-empty run of adds the list is within the limit and starts
      with the most recently added toast. */
  lemma {:induction false} AddedAllBounded(s: seq<ToasterToast>, ts: seq<ToasterToast>)
    requires ts != []
    ensures |AddedAll(s, ts)| <= TOAST_LIMIT
    ensures AddedAll(s, ts)[0] == ts[|ts| - 1]
  {
  }

  /** No action takes a list that is within the limit beyond it. */
  lemma {:induction false} ReduceKeepsLimit(s: seq<ToasterToast>, a: Action)
    requires |s| <= TOAST_LIMIT
    ensures |Reduce(s, a)| <= TOAST_LIMIT
  {
    match a
    case AddToast(t) =>
    case UpdateToast(p) =>
    case DismissToast(toastId) =>
    case RemoveToast(toastId) =>
  }

  // ---------------------------------------------------------------------------
  // UPDATE_TOAST

  /** The merge overwrites exactly the keys the patch carries. */
  lemma MergeOverwritesPresentKeys(t: ToasterToast, p: Patch)
    ensures p.title.Set? ==> Merge(t, p).title == p.title.value
    ensures p.title.Keep? ==> Merge(t, p).title == t.title
    ensures p.description.Set? ==> Merge(t, p).description == p.description.value
    ensures p.description.Keep? ==> Merge(t, p).description == t.description
    ensures p.className.Set? ==> Merge(t, p).className == p.className.value
    ensures p.className.Keep? ==> Merge(t, p).className == t.className
    ensures p.duration.Set? ==> Merge(t, p).duration == p.duration.value
    ensures p.duration.Keep? ==> Merge(t, p).duration == t.duration
    ensures p.open.Set? ==> Merge(t, p).open == p.open.value
    ensures p.open.Keep? ==> Merge(t, p).open == t.open
    ensures Merge(t, EmptyPatch(p.id)) == t
  {
  }

  /** Entries the patch does not name are untouched, named ones are merged. */
  lemma UpdatedChangesOnlyTarget(s: seq<ToasterToast>, p: Patch, i: nat)
    requires i < |s|
    ensures !Targets(p, s[i]) ==> Updated(s, p)[i] == s[i]
    ensures Targets(p, s[i]) ==> Updated(s, p)[i] == Merge(s[i], p)
  {
  }

  /** An update whose id names no toast leaves the list as it was. */
  lemma {:induction false} UpdatedUnknownIdIsNoOp(s: seq<ToasterToast>, p: Patch)
    requires forall i | 0 <= i < |s| :: !Targets(p, s[i])
    ensures Updated(s, p) == s
  {
    assert forall i | 0 <= i < |s| :: Updated(s, p)[i] == s[i];
  }

  /** `update({id, title: "X"})` changes only the title of the named toast. */
  lemma UpdatedTitleOnly(s: seq<ToasterToast>, id: string, title: string, i: nat)
    requires i < |s|
    ensures s[i].id == id ==>
      Updated(s, EmptyPatch(Some(id)).(title := Set(Some(title))))[i] == s[i].(title := Some(title))
    ensures s[i].id != id ==> Updated(s, EmptyPatch(Some(id)).(title := Set(Some(title))))[i] == s[i]
  {
  }

  /** Applying the same update twice is the same as applying it once. */
  lemma {:induction false} UpdatedIdempotent(s: seq<ToasterToast>, p: Patch)
    ensures Updated(Updated(s, p), p) == Updated(s, p)
  {
    var once := Updated(s, p);
    forall i | 0 <= i < |s|
      ensures Updated(once, p)[i] == once[i]
    {
      assert once[i].id == s[i].id by { assert Ids(once)[i] == Ids(s)[i]; }
    }
  }

  // ---------------------------------------------------------------------------
  // DISMISS_TOAST

  /** With an id, exactly the toasts carrying it are closed, nothing else changes. */
  lemma DismissedOne(s: seq<ToasterToast>, id: string, i: nat)
    requires i < |s|
    ensures s[i].id == id ==> Dismissed(s, Some(id))[i] == s[i].(open := Some(false))
    ensures s[i].id != id ==> Dismissed(s, Some(id))[i] == s[i]
  {
  }

  /** Without an id, every toast is closed and nothing else about it changes. */
  lemma DismissedAll(s: seq<ToasterToast>)
    ensures |Dismissed(s, None)| == |s|
    ensures forall i | 0 <= i < |s| :: Dismissed(s, None)[i] == s[i].(open := Some(false))
  {
  }

  /** Dismissing twice leaves the same list as dismissing once. */
  lemma {:induction false} DismissedIdempotent(s: seq<ToasterToast>, toastId: Option<string>)
    ensures Dismissed(Dismissed(s, toastId), toastId) == Dismissed(s, toastId)
  {
    var once := Dismissed(s, toastId);
    forall i | 0 <= i < |s|
      ensures Dismissed(once, toastId)[i] == once[i]
    {
      assert once[i].id == s[i].id by { assert Ids(once)[i] == Ids(s)[i]; }
    }
  }

  /** Dismissing with no id queues every current id; with a non-empty id it
      queues that id whether or not a toast carries it. */
  lemma DismissSchedules(s: seq<ToasterToast>, id: string)
    ensures ScheduledRemovals(s, DismissToast(None)) == Ids(s)
    ensures id != "" ==> ScheduledRemovals(s, DismissToast(Some(id))) == [id]
  {
  }

  /** The empty id is falsy: it queues every toast for removal yet closes only
      toasts whose id is empty, so the toasts the store generates stay open. */
  lemma DismissEmptyIdQueuesAllClosesNone(s: seq<ToasterToast>)
    requires forall i | 0 <= i < |s| :: s[i].id != ""
    ensures ScheduledRemovals(s, DismissToast(Some(""))) == Ids(s)
    ensures Dismissed(s, Some("")) == s
  {
    assert forall i | 0 <= i < |s| :: Dismissed(s, Some(""))[i] == s[i];
  }

  /** Only DISMISS_TOAST touches the removal queue. */
  lemma OnlyDismissSchedules(s: seq<ToasterToast>, a: Action)
    requires !a.DismissToast?
    ensures ScheduledRemovals(s, a) == []
  {
  }

  // ---------------------------------------------------------------------------
  // REMOVE_TOAST

  /** Every toast with another id survives the filter. */
  lemma {:induction false} WithoutIdKeepsOthers(s: seq<ToasterToast>, toastId: string, t: ToasterToast)
    requires t in s && t.id != toastId
    ensures t in WithoutId(s, toastId)
  {
    if s[0] != t {
      WithoutIdKeepsOthers(s[1..], toastId, t);
    }
  }

  /** Removing an id no toast carries leaves the list as it was. */
  lemma {:induction false} WithoutIdUnknownIsNoOp(s: seq<ToasterToast>, toastId: string)
    requires forall i | 0 <= i < |s| :: s[i].id != toastId
    ensures WithoutId(s, toastId) == s
  {
    if s != [] {
      WithoutIdUnknownIsNoOp(s[1..], toastId);
    }
  }

  /** The filter works piecewise, so survivors keep their relative order. */
  lemma {:induction false} WithoutIdConcat(a: seq<ToasterToast>, b: seq<ToasterToast>, toastId: string)
    ensures WithoutId(a + b, toastId) == WithoutId(a, toastId) + WithoutId(b, toastId)
  {
    if a == [] {
      assert a + b == b;
    } else {
      assert (a + b)[1..] == a[1..] + b;
      WithoutIdConcat(a[1..], b, toastId);
    }
  }

  /** REMOVE_TOAST: with an id exactly the other toasts survive; without one
      the list is emptied. */
  lemma RemovedSpec(s: seq<ToasterToast>, toastId: Option<string>)
    ensures toastId == None ==> Removed(s, toastId) == []
    ensures toastId.Some? ==> forall t :: t in Removed(s, toastId) <==> t in s && t.id != toastId.value
  {
    if toastId.Some? {
      forall t | t in s && t.id != toastId.value
        ensures t in Removed(s, toastId)
      {
        WithoutIdKeepsOthers(s, toastId.value, t);
      }
    }
  }
}

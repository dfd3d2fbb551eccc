# Toast store and report-form checks of cybernet-guardian, in Dafny

The repository is a dashboard for a simulated network security scan. This
project models the two parts of it that hold logic.

**The toast notification store** (`src/components.tsx`, lines 23–213) is a
process-wide list of transient messages.
- The list changes only through a reducer with four actions: ADD_TOAST,
  UPDATE_TOAST, DISMISS_TOAST and REMOVE_TOAST.
- A closed toast is purged by a removal timer. The registry `toastTimeouts`
  allows at most one such timer per id.
- `dispatch` stores the reducer's result and calls every subscribed listener
  in order.
- `toast()` gives each toast a fresh id and may arm an auto-dismiss timer.

The model has these modules:
- `ToastModel` (`toast_model.dfy`) holds the toast records, the actions and
  the pure reducer. `Reduce` gives the next toast list. `ScheduledRemovals`
  gives the ids DISMISS_TOAST hands to `addToRemoveQueue`, in call order.
- `ToastIds` (`toast_ids.dfy`) models `genId`. The counter wraps at
  `Number.MAX_SAFE_INTEGER`, and an id is the counter's decimal text.
- `ToastStore` (`toast_store.dfy`) holds the class `Store`. Its fields are
  the state the source changes in place: `toasts` (`memoryState`),
  `toastTimeouts`, the timer callbacks still waiting on the event loop
  (`timers`, keyed by handle), the id counter, the listener list, and a log
  of every listener call.
  - `Valid()` is the store's invariant. The list stays within `TOAST_LIMIT`.
    The registry and the pending removal timers match one to one.
  - Each timer kind has its own fire method, callable only while that timer
    is pending: `FireRemoval` for removal timers, `FireAutoDismiss` for
    auto-dismiss timers.
- `ToastScenarios` (`toast_scenarios.dfy`) holds three client runs proved
  from the contracts alone: auto-dismiss then purge, dismissing twice, and
  two listeners.

**The report form** (`script.js`) is modelled in `ReportForm`
(`report_form.dfy`):
- the e-mail pattern `^[^\s@]+@[^\s@]+\.[^\s@]+$`;
- the severity badge table with its fallback to `low`;
- the order in which `handleSendReport` rejects an e-mail.

Behaviour of the code worth knowing:
- **The empty id in DISMISS_TOAST.** The code tests `if (toastId)`, so
  `dismiss("")` queues every toast for removal. It closes only toasts whose
  id is `""`, which is none of the ids `genId` makes. See
  `DismissEmptyIdQueuesAllClosesNone`.
- **Dismissing an absent id.** DISMISS_TOAST with a non-empty id queues that
  id even when no toast carries it.
- **A second toast replaces the first.** With `TOAST_LIMIT` = 1 the list
  holds only the newest toast, so after two `toast()` calls each listener
  sees one entry. See `ToastScenarios.TwoListeners`.

## Model

| member | source | states |
|---|---|---|
| `ToastModel.Added` | src/components.tsx:95-99 | ADD_TOAST puts the new toast first, keeps at most `TOAST_LIMIT` entries, never drops the new one, and the result is a prefix of the new toast followed by the old list |
| `ToastModel.AddedKeepsOnlyNewest` | src/components.tsx:95-99 | with the limit of 1, adding leaves exactly the new toast |
| `ToastModel.AddedAllBounded` | src/components.tsx:95-99 | after any non-empty run of adds the list is within the limit and its first entry is the most recently added toast |
| `ToastModel.ReduceKeepsLimit` | src/components.tsx:93-144 | no action takes a list that is within `TOAST_LIMIT` beyond it |
| `ToastModel.Merge` | src/components.tsx:105 | the shallow merge keeps the toast's id and its close hook |
| `ToastModel.MergeOverwritesPresentKeys` | src/components.tsx:105 | a key present in the patch overwrites the toast's value, an absent key keeps it, and a patch with no keys changes nothing |
| `ToastModel.Updated` | src/components.tsx:101-107 | UPDATE_TOAST keeps the length and the ids, in order |
| `ToastModel.UpdatedChangesOnlyTarget` | src/components.tsx:101-107 | an entry whose id the patch names is merged with the patch; every other entry is unchanged |
| `ToastModel.UpdatedUnknownIdIsNoOp` | src/components.tsx:101-107 | an update whose id names no toast leaves the list unchanged |
| `ToastModel.UpdatedTitleOnly` | src/components.tsx:101-107 | `update({id, title})` changes only the title of the entry with that id and leaves the others untouched |
| `ToastModel.UpdatedIdempotent` | src/components.tsx:101-107 | applying the same update twice gives the same list as applying it once |
| `ToastModel.Dismissed` | src/components.tsx:120-130 | DISMISS_TOAST keeps the length and the ids, in order |
| `ToastModel.DismissedOne` | src/components.tsx:120-130 | with an id, entries with that id get `open: false` and nothing else changes; other entries are unchanged |
| `ToastModel.DismissedAll` | src/components.tsx:120-130 | without an id, every entry gets `open: false` and nothing else about it changes |
| `ToastModel.DismissedIdempotent` | src/components.tsx:120-130 | dismissing twice gives the same list as dismissing once |
| `ToastModel.DismissSchedules` | src/components.tsx:112-118 | dismiss-all queues every current id in list order; a non-empty id is queued alone, whether or not a toast carries it |
| `ToastModel.DismissEmptyIdQueuesAllClosesNone` | src/components.tsx:109-130 | the empty id queues every toast for removal but closes none of the toasts that have non-empty ids |
| `ToastModel.OnlyDismissSchedules` | src/components.tsx:93-144 | ADD, UPDATE and REMOVE queue no removal |
| `ToastModel.WithoutId` | src/components.tsx:139-142 | the filter never grows the list, and every survivor was in the list and has another id |
| `ToastModel.WithoutIdKeepsOthers` | src/components.tsx:139-142 | every toast with another id survives the filter |
| `ToastModel.WithoutIdUnknownIsNoOp` | src/components.tsx:139-142 | removing an id that no toast carries leaves the list unchanged |
| `ToastModel.WithoutIdConcat` | src/components.tsx:139-142 | the filter works piecewise on a concatenation, so survivors keep their relative order |
| `ToastModel.Removed` | src/components.tsx:132-142 | REMOVE_TOAST never grows the list, and every survivor was present and has an id other than the given one |
| `ToastModel.Reduce` | src/components.tsx:93-144 | ADD_TOAST puts the added toast first within the limit; UPDATE_TOAST and DISMISS_TOAST keep the ids in order; REMOVE_TOAST never grows the list |
| `ToastModel.ScheduledRemovals` | src/components.tsx:109-118 | every id the reducer queues for removal is the id the DISMISS_TOAST action names or the id of a current toast |
| `ToastModel.RemovedSpec` | src/components.tsx:132-142 | REMOVE_TOAST without an id empties the list; with an id, a toast survives if and only if it was present and has another id |
| `ToastIds.NextCount` | src/components.tsx:46-47 | the counter stays below `MAX_SAFE_INTEGER`; it goes up by one, and from `MAX_SAFE_INTEGER - 1` it wraps to 0 |
| `ToastIds.CountAfter` | src/components.tsx:46-47 | zero calls leave the counter as it was; after one or more calls it is below `MAX_SAFE_INTEGER` |
| `ToastIds.CountAfterIsModular` | src/components.tsx:44-49 | `k` calls of `genId` move the counter to `(count + k) % MAX_SAFE_INTEGER` |
| `ToastIds.CountsDistinctUntilWrap` | src/components.tsx:46-49 | two calls fewer than `MAX_SAFE_INTEGER` calls apart see different counters |
| `ToastIds.CountWrapsAfterMax` | src/components.tsx:47 | after exactly `MAX_SAFE_INTEGER` calls the counter returns to its start value |
| `ToastIds.DecimalString` | src/components.tsx:48 | `count.toString()` is a non-empty digit string with no leading zero |
| `ToastIds.ParseDecimalString` | src/components.tsx:48 | reading the decimal text back gives the number |
| `ToastIds.DecimalStringInjective` | src/components.tsx:48 | different counters give different id strings |
| `ToastIds.GeneratedIdsDistinct` | src/components.tsx:46-49 | `genId` results fewer than `MAX_SAFE_INTEGER` calls apart are distinct strings |
| `ToastStore.NewToast` | src/components.tsx:169-179 | the record `toast()` adds carries the new id and the caller's payload, is open, and has a close hook that dismisses its own id |
| `ToastStore.Fanout` | src/components.tsx:152-154 | one dispatch makes one call per listener, in list order, each with the new state |
| `ToastStore.FanoutConcat` | src/components.tsx:152-154 | fanning out over a list equals fanning out over its parts in turn |
| `ToastStore.RemoveFirst` | src/components.tsx:200-204 | unsubscribing a present listener removes exactly one occurrence, shown by length and multiset; an absent listener leaves the list unchanged |
| `ToastStore.RemoveFirstAt` | src/components.tsx:201-203 | the removal cuts the list at the first index holding the listener (`splice(index, 1)`) |
| `ToastStore.SubscribeThenUnsubscribe` | src/components.tsx:198-205 | subscribing a new listener and then unsubscribing it restores the listener list |
| `ToastStore.IndexOf` | src/components.tsx:201 | returns -1 exactly when the listener is absent; otherwise the first index holding it |
| `ToastStore.ScheduledRegisteredIsNoOp` | src/components.tsx:77-80 | queueing ids that are all registered already changes neither the registry, nor the pending timers, nor the handle counter |
| `ToastStore.AtMostOneRemovalTimer` | src/components.tsx:75-91 | in a valid store no id has two pending removal timers |
| `ToastStore.Store.constructor` | src/components.tsx:146-148 | the store starts empty: no toasts, no timers, no listeners, counter 0 |
| `ToastStore.Store.GenId` | src/components.tsx:46-49 | the counter advances by `NextCount`, and the id is its decimal text |
| `ToastStore.Store.SetTimeout` | src/components.tsx:82-88 | a new callback is queued under a fresh handle |
| `ToastStore.Store.AddToRemoveQueue` | src/components.tsx:77-91 | an id that is registered already changes nothing; otherwise exactly one removal timer of `TOAST_REMOVE_DELAY` ms is armed and registered for it; the invariant is kept |
| `ToastStore.Store.Reducer` | src/components.tsx:93-144 | returns `Reduce` of the current list and arms removal timers for exactly the ids `ScheduledRemovals` names, re-arming none |
| `ToastStore.Store.Dispatch` | src/components.tsx:150-155 | the stored list becomes the reducer's result, then each listener is called once, in order, with the new list |
| `ToastStore.Store.Toast` | src/components.tsx:159-193 | returns the new id; the front entry carries that id and is open; an auto-dismiss timer is armed exactly when the duration is positive |
| `ToastStore.Store.Dismiss` | src/components.tsx:211 | DISMISS_TOAST for the given id or for all; the list and the registry change as the reducer says |
| `ToastStore.Store.Update` | src/components.tsx:162-166 | UPDATE_TOAST with the patch's id forced to the handle's id; no timer changes and no handle is spent |
| `ToastStore.Store.OpenChange` | src/components.tsx:167-177 | closing a toast that carries a hook has the whole effect of `dismiss()` for the hook's id: the list closes it, its removal is queued as the reducer says, and every listener is called; opening it, or a toast without a hook, changes nothing |
| `ToastStore.Store.FireRemoval` | src/components.tsx:82-88 | the removal timer leaves the registry and the timer queue, then REMOVE_TOAST for its id is dispatched; no handle is spent |
| `ToastStore.Store.FireAutoDismiss` | src/components.tsx:181-186 | the auto-dismiss timer leaves the queue and dismisses its id |
| `ToastStore.Store.Subscribe` | src/components.tsx:198-199 | the listener is appended to the list |
| `ToastStore.Store.Unsubscribe` | src/components.tsx:200-204 | the list loses the first occurrence of the listener, if there is one |
| `ToastScenarios.AutoDismissThenPurge` | src/components.tsx:181-186 | a toast with a positive duration is shown open, its auto-dismiss closes it, and the removal timer this arms leaves an empty list |
| `ToastScenarios.DismissTwiceArmsOneRemoval` | src/components.tsx:77-80 | dismissing a toast registers exactly its id; dismissing it again changes neither the registry nor the pending timers |
| `ToastScenarios.TwoListeners` | src/components.tsx:150-155 | both listeners get the same one-entry list in subscription order; after the first unsubscribes, only the second is called, and it sees only the newer toast |
| `ReportForm.IsWhitespace` | script.js:365 | the `\s` class never holds the pattern's separators `@` and `.` |
| `ReportForm.IsValidEmail` | script.js:364-367 | any accepted address has at least five characters |
| `ReportForm.ValidEmailMeetsConditions` | script.js:364-367 | every input the pattern accepts has exactly one `@`, no whitespace, a non-empty local part, and a domain with a `.` that is neither first nor last |
| `ReportForm.ConditionsGiveValidEmail` | script.js:364-367 | every input meeting those conditions is accepted |
| `ReportForm.EmailCharacterization` | script.js:364-367 | the pattern accepts an input if and only if it meets the conditions |
| `ReportForm.EmailNeedsExactlyOneAt` | script.js:365 | inputs with no `@`, or with two or more, are rejected |
| `ReportForm.EmailRejectsWhitespace` | script.js:365 | inputs containing any whitespace character are rejected |
| `ReportForm.ShortestEmailAccepted` | script.js:365 | `"a@b.c"` is accepted |
| `ReportForm.EmailEmptyDomainLabelRejected` | script.js:365 | `"a@.c"` is rejected |
| `ReportForm.EmailEmptyTopLabelRejected` | script.js:365 | `"a@b."` is rejected |
| `ReportForm.EmailEmptyLocalPartRejected` | script.js:365 | `"@b.c"` is rejected |
| `ReportForm.SeverityConfig` | script.js:331-336 | the table has an entry exactly for `critical`, `high`, `medium` and `low`, and each entry's class is `badge-` followed by its key |
| `ReportForm.SeverityBadge` | script.js:338 | a known severity gets its own table entry, class and label; any other input gets the `low` entry |
| `ReportForm.GetSeverityBadge` | script.js:338-339 | the markup renders the table entry of a known severity, and the `low` entry for any other input |
| `ReportForm.UnknownSeverityRendersAsLow` | script.js:338-339 | the markup for an unknown severity is identical to that for `low` |
| `ReportForm.KnownSeveritiesDistinct` | script.js:331-336 | the four severities get four different classes and labels |
| `ReportForm.CheckReportEmail` | script.js:140-148 | the "missing e-mail" outcome occurs exactly for the empty input; "invalid e-mail" exactly for a non-empty input the pattern rejects; any input the pattern accepts passes |
| `ReportForm.ReportErrorToast` | script.js:140-148 | both rejections show a toast of type `error` titled "خطأ"; an accepted e-mail shows none |

## Left out

- The React components, JSX and styling in `src/components.tsx`, all of `src/components/CybernetDashboard.tsx`, and `src/App.tsx` are presentational or routing code. `cva`, `cn` and `@radix-ui` are not part of this model.
- Wall-clock time is not modelled. Each `setTimeout` callback is an entry in `Store.timers`, and the environment may fire any pending entry at any time. The model therefore also allows firing orders that real deadlines would exclude. The delays are kept as data: a removal timer carries `TOAST_REMOVE_DELAY`, an auto-dismiss timer the toast's duration.
- Listeners are opaque numbers. The effect of a call is recorded in `Store.deliveries`, standing for the `setState` of one `useToast` instance.
- Not modelled: `useToast`'s `useState` snapshot, the `[state]` dependency that re-subscribes after every change, and what the returned object exposes.
- Toast payloads (`title`, `description`, React nodes in the source) are opaque optional strings, and `className` is an optional string. `onOpenChange` is modelled only as the hook `toast()` installs, which dismisses its own id.
- ToastModel.Patch: a patch cannot replace `onOpenChange`, because a callback supplied by the caller is foreign code; keys outside `ToasterToast` are not carried either.
- ToastStore.ToastProps: `duration` is an integer; fractional and NaN durations are not modelled. The caller's `open` and `onOpenChange` are not kept, because `toast()` overwrites them.
- Listener callbacks that subscribe or unsubscribe during a dispatch are not modelled. Every store operation runs to completion before the next one starts.
- Evicting a toast through the limit does not cancel its timers, in the source or in the model. A stale timer that fires later acts on an absent id, which the reducer lemmas show is harmless.
- ReportForm.SeverityConfig: JavaScript object lookup also finds keys inherited from `Object.prototype`, such as `"constructor"` and `"toString"`. Those give truthy non-table values, and the rendered badge then shows `undefined`. The model treats such keys as unknown and falls back to `low`.
- ReportForm.IsWhitespace: `\s` is taken as ECMAScript's WhiteSpace and LineTerminator code points. The members of Unicode category Zs are taken as of current Unicode.
- ReportForm.IsValidEmail: JavaScript strings are UTF-16 code units, while the model works on Unicode scalar values. For well-formed strings the results agree: no whitespace lies outside the Basic Multilingual Plane, and both halves of a surrogate pair belong to `[^\s@]`. A lone surrogate has no counterpart among Dafny's characters and is not modelled.
- The rest of `script.js` is left out: the `fetch` calls to the backend (network I/O), every DOM update (`displayDevices`, `displayVulnerabilities`, its own DOM `showToast`, `updateAdditionalOptions`), the scan flags, and `createRainAnimation` (which uses `Math.random` and floating point).

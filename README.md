# Toast queue of the notification front end, in Dafny

This project models the toast queue of the React front end. It covers three parts:

- **The toast container** (`components/ToastContainer.jsx`). It keeps an ordered list of `{ id, message, type, duration }` records and a map from toast id to the handle of a one-shot timer.
  - `addToast` appends a record, arms a timer for `max(0, duration)` and returns the id.
  - `removeToast` clears and deletes the recorded timer, then filters the id out of the list.
  - The timer's callback is `removeToast(id)` itself.
- **The showcase page** (`pages/ToastShowcase.jsx`). It is a page-local copy of the same queue, with `pushToast`, `scheduleRemoval` and `handleClose`.
  - Its timer body removes the toast inline.
  - `scheduleRemoval` clears any timer already recorded for the id before it arms a new one.
  - The custom-toast button falls back to `'Custom toast'` and to 3000 ms.
- **The form page** (`App.js`).
  - `computeValidation` trims the username and the password, then applies the length thresholds 3 and 6.
  - `usernameHint` and `passwordHint` are the matching inline hints.
  - `handleSubmit` and `handleSaveChanges` turn the validation result into `addToast` calls.

## Modules

- `Toasts` (`toasts.dfy`) holds what both queues share:
  - the toast record and the armed-timer record;
  - the state `Queue`: the list, the id-to-handle map, the host's table of armed timers and the next handle;
  - `Without`, which is `filter` by id;
  - the invariant `WellFormed`: ids are unique, the map's keys are exactly the listed ids, and the map and the armed timers are inverse to each other.
- `Container` (`container.dfy`):
  - `Added`, `Removed` and `Fired` say what each operation does to a `Queue` value.
  - The class `ToastContainer` keeps the list and the maps as fields. Its methods update them step by step and are proved to reach exactly those states.
  - A trace model of events (`Add`, `Close`, `Fire` of a timer handle) interleaved freely on one event loop. Over it, the model proves that a toast leaves the list exactly once, whichever of close and expiry comes first.
- `Showcase` (`showcase.dfy`): the same split for the page, with the class `ToastShowcase`.
- `JsText` (`jstext.dfy`): form strings as UTF-16 code units, and `String.prototype.trim` over the ECMAScript white-space and line-terminator sets.
- `App` (`app.dfy`):
  - validation and hints as functions;
  - the handlers as methods that call the container's `AddToast`. The `errors.forEach` of `handleSaveChanges` is a `while` loop.

### How the model handles the host
- **Ids.** Random id generation is replaced by a fresh-id oracle. Each `addToast` or `pushToast` call receives its id as a parameter, and the caller must ensure that no listed toast has it. The form handlers receive one oracle id per `addToast` call they make.
- **Timers.** `setTimeout` hands out the next positive handle, so a handle is always truthy. The host's table of armed timers is part of the state. `clearTimeout` deletes the timer from that table. A timer firing is an event on an armed handle.
- **React state.** Updater functions are applied immediately, in call order.

The model follows the code:
- `addToast` does not reject an empty message.
- `addToast` clamps a negative duration to 0 rather than rejecting it.
- `removeToast` returns nothing.
- The showcase arms its timer with the duration exactly as given, with no clamping.

## Model

| member | source | states |
|---|---|---|
| Toasts.Without | notification_frontend/src/components/ToastContainer.jsx:44 | Filtering by id keeps exactly the toasts with another id, so the id is absent afterwards, and the list never grows. |
| Toasts.WithoutAbsent | notification_frontend/src/components/ToastContainer.jsx:44 | Filtering an id that no toast has leaves the list unchanged. |
| Toasts.WithoutAppend | notification_frontend/src/components/ToastContainer.jsx:44 | Filtering distributes over concatenation, so the kept toasts stay in their relative order. |
| Toasts.WithoutIdempotent | notification_frontend/src/components/ToastContainer.jsx:44 | Filtering twice by the same id is filtering once. |
| Toasts.WithoutSplit | notification_frontend/src/components/ToastContainer.jsx:44 | Removing the only toast with an id from `a + [t] + b` leaves exactly `a + b`. |
| Toasts.WithoutCommutes | notification_frontend/src/components/ToastContainer.jsx:44 | Removals of two ids give the same list in either order. |
| Toasts.DistinctAppend | notification_frontend/src/components/ToastContainer.jsx:49-50 | Appending a record with a fresh id keeps ids unique. |
| Toasts.DistinctWithout | notification_frontend/src/components/ToastContainer.jsx:44 | Filtering keeps ids unique. |
| Toasts.IdsAppend | notification_frontend/src/components/ToastContainer.jsx:50 | The ids after an append are the old ids plus the new one. |
| Toasts.IdsWithout | notification_frontend/src/components/ToastContainer.jsx:44 | The ids after filtering are the old ids minus the removed one. |
| Toasts.ClearedTimersAgree | notification_frontend/src/components/ToastContainer.jsx:39-43 | Clearing the recorded timer and deleting the map entry keeps the map and the armed timers inverse to each other. |
| Toasts.ArmedTimersAgree | notification_frontend/src/components/ToastContainer.jsx:53-56 | Arming a timer with a new handle and recording it for a new id keeps the map and the armed timers inverse to each other. |
| Toasts.DistinctSplit | notification_frontend/src/components/ToastContainer.jsx:44 | In a list with unique ids, a listed toast's id occurs neither before it nor after it. |
| Container.Delay | notification_frontend/src/components/ToastContainer.jsx:55 | The armed delay `max(0, duration)` is never negative, is at least the duration, and is either the duration or 0. |
| Container.ItemFor | notification_frontend/src/components/ToastContainer.jsx:47-49 | The record carries the given id and message, and `type` defaults to `'info'` and `duration` to 3000 when they are omitted. |
| Container.Initial | notification_frontend/src/components/ToastContainer.jsx:34-35 | The mounted container has no toasts and satisfies the invariant. |
| Container.Added | notification_frontend/src/components/ToastContainer.jsx:47-59 | The state after `addToast`: the record is at the tail of the list, the id's map entry names a newly armed timer targeting it with delay `max(0, duration)`, that handle is the only new armed timer, and every other armed timer keeps its record. |
| Container.Removed | notification_frontend/src/components/ToastContainer.jsx:37-45 | The state after `removeToast`: the list is the `filter` by id, the id has no map entry while all other ids keep theirs, armed timers are only cleared, and no handle is given out. |
| Container.Fired | notification_frontend/src/components/ToastContainer.jsx:53-55 | The state after a timer fires: its target is filtered out of the list and has no map entry, the fired timer is no longer armed, and no other timer is added or changed. |
| Container.AddedAppends | notification_frontend/src/components/ToastContainer.jsx:47-59 | `addToast` appends the record at the tail and leaves earlier records as they were. It records for the new id a newly armed timer that targets it with delay `max(0, duration)`, and leaves the other ids' handles and every earlier armed timer unchanged. |
| Container.AddedKeepsInvariant | notification_frontend/src/components/ToastContainer.jsx:47-59 | `addToast` with a fresh id keeps the invariant: unique ids, map keys equal the listed ids, the map and the armed timers agree, and no armed delay is negative. |
| Container.RemovedKeepsInvariant | notification_frontend/src/components/ToastContainer.jsx:37-45 | `removeToast` keeps the invariant for any id. |
| Container.RemovedEffect | notification_frontend/src/components/ToastContainer.jsx:37-45 | After `removeToast(id)` no record and no map entry has the id, and no armed timer targets it. The other records remain, in order; removing `t` from `before + [t] + after` leaves `before + after`. |
| Container.RemovedAbsentIsNoop | notification_frontend/src/components/ToastContainer.jsx:39-44 | `removeToast` of an unlisted id changes nothing at all. |
| Container.RemovedIdempotent | notification_frontend/src/components/ToastContainer.jsx:37-45 | Removing twice equals removing once, in every state. |
| Container.FiredIsRemoved | notification_frontend/src/components/ToastContainer.jsx:53-55 | A timer firing has exactly the effect of `removeToast` of the id it was armed for. |
| Container.FiredKeepsInvariant | notification_frontend/src/components/ToastContainer.jsx:53-55 | A timer firing keeps the invariant. |
| Container.StepKeepsInvariant | notification_frontend/src/components/ToastContainer.jsx:37-59 | Every add, close or timer event keeps the invariant. |
| Container.StepKeepsAbsent | notification_frontend/src/components/ToastContainer.jsx:37-59 | No event except adding an id makes that id listed. |
| Container.RunKeepsInvariant | notification_frontend/src/components/ToastContainer.jsx:37-59 | The state at the end of any admissible interleaving of events satisfies the invariant. |
| Container.RemovedAtMostOnce | notification_frontend/src/components/ToastContainer.jsx:37-55 | Over any interleaving that does not add the id again, the toast leaves the list at most once. It leaves once if it was listed at the start and is gone at the end, and otherwise never. |
| Container.StaysAbsent | notification_frontend/src/components/ToastContainer.jsx:37-59 | Once gone, an id stays gone while it is not added again. |
| Container.ClosedOrExpiredIsGone | notification_frontend/src/components/ToastContainer.jsx:53-55 | If the run contains a manual close of the toast or the firing of its timer, the toast is gone at the end and left the list exactly once. This holds whichever of the two comes first, and when both occur. |
| Container.TimerSurvivesStep | notification_frontend/src/components/ToastContainer.jsx:37-59 | While the toast stays listed, an event other than its close or its timer's firing leaves its recorded handle unchanged. |
| Container.ToastContainer.constructor | notification_frontend/src/components/ToastContainer.jsx:34-35 | A new container is in the initial state. |
| Container.ToastContainer.AddToast | notification_frontend/src/components/ToastContainer.jsx:47-59 | Given a fresh id, `addToast` returns that id, reaches exactly `Added`, keeps the invariant, and appends the record to `toasts`. |
| Container.ToastContainer.RemoveToast | notification_frontend/src/components/ToastContainer.jsx:37-45 | `removeToast` reaches exactly `Removed`, keeps the invariant, and leaves neither a record nor a map entry for the id. |
| Container.ToastContainer.Fire | notification_frontend/src/components/ToastContainer.jsx:53-55 | The callback runs `removeToast(id)`. The resulting state equals both `Fired` and `Removed` of the target. |
| Showcase.Initial | notification_frontend/src/pages/ToastShowcase.jsx:37-42 | The mounted page has an empty queue and satisfies the invariant. |
| Showcase.Scheduled | notification_frontend/src/pages/ToastShowcase.jsx:44-55 | The state after `scheduleRemoval`: the queue is untouched, the id's map entry names a newly armed timer for it with the given duration, and every other armed timer was armed before and is unchanged. |
| Showcase.Pushed | notification_frontend/src/pages/ToastShowcase.jsx:57-62 | The state after `pushToast`: the record is at the tail of the queue, and the id's map entry names an armed timer for it with the record's duration. |
| Showcase.Closed | notification_frontend/src/pages/ToastShowcase.jsx:64-72 | The state after `handleClose`: the queue is the `filter` by id, the id has no map entry while all other ids keep theirs, armed timers are only cleared, and no handle is given out. |
| Showcase.Fired | notification_frontend/src/pages/ToastShowcase.jsx:49-53 | The state after the inline timer body: its target is filtered out of the queue and has no map entry, and exactly the fired timer is retired. |
| Showcase.CustomMessage | notification_frontend/src/pages/ToastShowcase.jsx:179 | An empty entered message becomes `'Custom toast'`; any other message is used as entered. |
| Showcase.CustomDuration | notification_frontend/src/pages/ToastShowcase.jsx:178 | An entered duration of 0 becomes 3000; any other duration is used as entered. |
| Showcase.ScheduledOneTimer | notification_frontend/src/pages/ToastShowcase.jsx:44-55 | Rescheduling clears the id's old timer, so the id has exactly one armed timer, carrying the given duration. Other ids' timers are untouched, and the map and the armed timers still agree. |
| Showcase.PushedAppends | notification_frontend/src/pages/ToastShowcase.jsx:57-61 | `pushToast` appends `{ id, message, type, duration }` at the tail, keeps earlier entries, and arms one timer for the id. |
| Showcase.PushedKeepsInvariant | notification_frontend/src/pages/ToastShowcase.jsx:57-61 | `pushToast` with a fresh id keeps the invariant: map keys equal the queue ids, ids are unique, and timers agree. |
| Showcase.ClosedKeepsInvariant | notification_frontend/src/pages/ToastShowcase.jsx:64-72 | `handleClose` keeps the invariant for any id. |
| Showcase.ClosedEffect | notification_frontend/src/pages/ToastShowcase.jsx:64-72 | After `handleClose(id)` no entry and no map entry has the id, and no armed timer targets it. The other entries remain, in order. |
| Showcase.ClosedUnknownIsNoop | notification_frontend/src/pages/ToastShowcase.jsx:66-71 | `handleClose` of an unlisted id changes neither the queue nor the map. |
| Showcase.FiredIsClosed | notification_frontend/src/pages/ToastShowcase.jsx:49-53 | The inline timer body has exactly the effect of `handleClose` of its target. |
| Showcase.FiredKeepsInvariant | notification_frontend/src/pages/ToastShowcase.jsx:49-53 | A timer firing keeps the invariant. |
| Showcase.ToastShowcase.constructor | notification_frontend/src/pages/ToastShowcase.jsx:37-42 | A new page is in the initial state. |
| Showcase.ToastShowcase.ScheduleRemoval | notification_frontend/src/pages/ToastShowcase.jsx:44-55 | Reaches exactly `Scheduled`, keeps the map and the armed timers in agreement, and leaves the id's recorded timer as the only armed timer targeting it. |
| Showcase.ToastShowcase.PushToast | notification_frontend/src/pages/ToastShowcase.jsx:57-62 | Reaches exactly `Pushed`, keeps the invariant, and appends the record to `queue`. |
| Showcase.ToastShowcase.HandleClose | notification_frontend/src/pages/ToastShowcase.jsx:64-72 | Reaches exactly `Closed`, keeps the invariant, and leaves no entry and no map entry for the id. |
| Showcase.ToastShowcase.Fire | notification_frontend/src/pages/ToastShowcase.jsx:49-53 | The inline body reaches exactly `Fired`, which equals `Closed` of the target. |
| Showcase.ToastShowcase.ShowCustomToast | notification_frontend/src/pages/ToastShowcase.jsx:177-180 | The custom button pushes the toast with the message and duration fallbacks applied. |
| JsText.SkipLeading | notification_frontend/src/App.js:40 | The returned index is the end of the white-space run that starts at `i`. |
| JsText.SkipTrailing | notification_frontend/src/App.js:40 | The returned index is the start of the white-space run that ends at `j`. |
| JsText.Trim | notification_frontend/src/App.js:40-41 | `trim` returns a contiguous slice of the input, with only white space cut off on either side. The result is empty exactly when the input is all white space; otherwise its first and last code units are not white space. |
| JsText.TrimIdempotent | notification_frontend/src/App.js:60 | Trimming a trimmed string changes nothing. |
| App.SuccessRequest | notification_frontend/src/App.js:28-30 | `successToast` passes the message through and asks for type `'success'` and `SUCCESS_DURATION` (3000). |
| App.ErrorRequest | notification_frontend/src/App.js:32-34 | `errorToast` passes the message through and asks for type `'error'` and the given duration, which defaults to `ERROR_DURATION` (5000). |
| App.ComputeValidation | notification_frontend/src/App.js:37-56 | The form is valid exactly when no message was collected. At most two messages are collected, each a username or password message; when there are two, the username message comes first. |
| App.UsernameHint | notification_frontend/src/App.js:59-64 | The username hint is empty exactly when the trimmed username has at least 3 code units, is "Required" exactly when it is empty, and is "Must be at least 3 characters" when it has 1 or 2 code units. |
| App.PasswordHint | notification_frontend/src/App.js:66-71 | The password hint is empty exactly when the trimmed password has at least 6 code units, is "Required" exactly when it is empty, and is "Must be at least 6 characters" when it has 1 to 5 code units. |
| App.SubmitToasts | notification_frontend/src/App.js:74-85 | `handleSubmit` asks for exactly one toast, lasting 3000 ms, which is an error exactly when the form is invalid. |
| App.SaveToasts | notification_frontend/src/App.js:88-97 | `handleSaveChanges` asks for one or two toasts, all of them errors exactly when the form is invalid. |
| App.UsernameMessages | notification_frontend/src/App.js:43-47 | "Username is required" exactly when the trimmed username is empty (the field is all white space). "Username must be at least 3 characters" exactly when the trimmed length is 1 or 2. |
| App.PasswordMessages | notification_frontend/src/App.js:49-53 | "Password is required" exactly when the trimmed password is empty. "Password must be at least 6 characters" exactly when the trimmed length is 1 to 5. |
| App.ValidExactly | notification_frontend/src/App.js:43-55 | Valid exactly when the trimmed username has at least 3 code units and the trimmed password at least 6. |
| App.MessagesDiffer | notification_frontend/src/App.js:44-52 | The four validation messages are distinct texts. |
| App.HintsAgreeWithValidation | notification_frontend/src/App.js:59-71 | A field shows no hint exactly when validation reports nothing about it. It shows "Required" exactly when validation reports it as required. |
| App.ErrorToasts | notification_frontend/src/App.js:92 | One error request per validation message, in order, each for 5000 ms. |
| App.ItemsForAt | notification_frontend/src/App.js:92 | The `k`-th `addToast` call of a run appends the record for the `k`-th request with the `k`-th oracle id. |
| App.FreshAfterAppend | notification_frontend/src/App.js:92 | Appending a toast whose id is not among the oracle's remaining ids keeps those ids fresh. |
| App.ItemsForExtend | notification_frontend/src/App.js:92 | One more `addToast` call appends exactly its record after the earlier ones. |
| App.AddedAllItems | notification_frontend/src/App.js:92 | A run of `addToast` calls appends exactly the records `ItemsFor` lists, in call order. |
| App.AddedAllExtend | notification_frontend/src/App.js:92 | One more `addToast` call extends the run's state by exactly that call. |
| App.SubmitEmitsOne | notification_frontend/src/App.js:74-85 | `handleSubmit` asks for exactly one toast, always lasting 3000 ms. When invalid it is the error "Please fill in the required details"; when valid, the success "Form submitted successfully". |
| App.SaveEmitsPerError | notification_frontend/src/App.js:88-97 | `handleSaveChanges` asks, when the form is invalid, for one error toast per validation message, in order, each lasting 5000 ms. When valid it asks for one success toast "Changes saved successfully" lasting 3000 ms. |
| App.SuccessToast | notification_frontend/src/App.js:28-30 | The container's whole new state is one `addToast` of the success request: the success record appended, its timer armed under the next handle, every other timer untouched; the invariant holds. |
| App.ErrorToast | notification_frontend/src/App.js:32-34 | The container's whole new state is one `addToast` of the error request: the error record appended, its timer armed under the next handle, every other timer untouched; the invariant holds. |
| App.HandleSubmit | notification_frontend/src/App.js:74-85 | The container's whole new state is the `addToast` run for `SubmitToasts` (records and timers); its list grows by exactly those records, and the invariant holds. |
| App.HandleSaveChanges | notification_frontend/src/App.js:88-97 | The container's whole new state is the `addToast` run for `SaveToasts` (records and timers, in call order); its list grows by exactly those records, and the invariant holds. |
| App.EmitErrorToasts | notification_frontend/src/App.js:92 | The `forEach` leaves the container in the state of one `addToast` per message, in order, with the oracle ids in call order: records appended and their timers armed; the invariant holds. |
| App.EmitErrorToast | notification_frontend/src/App.js:92 | One turn of the `forEach` extends the `addToast` run by the next message's call (record and timer) and keeps the remaining oracle ids fresh. |

## Left out

- The JSX markup, styling, icons and the type-to-colour maps are presentation only.
- The card components `Toast.jsx` and `Notification.jsx` are not part of this model. A card's close button is an arbitrary `Close(id)` event. The card's own internal auto-close depends on React re-render semantics.
- Real time is not modelled. `setTimeout` and `clearTimeout` become abstract handles and `Fire` events, with no millisecond arithmetic. A zero delay is therefore the same as any other `Fire` event.
- React context, `useCallback`, `useMemo`, `useRef` and the batching of state updates are left out. Updaters are applied immediately, in call order.
- `Math.random` and `Date.now` id generation is replaced by a fresh-id oracle. The caller supplies the id and must guarantee it is fresh.
- `Number(...)` coercion of arbitrary text and NaN in the showcase's duration field are left out, because they are floating-point and coercion behaviour.
  - Showcase.CustomDuration: takes a whole number that `Number` has already produced, so only the `|| 3000` fallback on 0 is modelled.
- The showcase's preset buttons, a fixed table of three `pushToast` arguments, are left out, since they are presentation.
- Unmount cleanup is not modelled, because neither queue clears its timers on unmount in the code.
- `RootRouter.js`, `index.js` and `tailwind.config.js` are routing, bootstrapping and build configuration. They are not part of this model.
- `App.test.js` queries test ids that `App.js` does not render, so it is not used as evidence.
- `removeToast` returns nothing and sends no change notification; `addToast` accepts an empty message and clamps a negative delay to 0.
- JsText.Trim: covers the UTF-16 code units in the ECMAScript white-space and line-terminator sets as listed. Unicode updates to category Zs after that list are not tracked.

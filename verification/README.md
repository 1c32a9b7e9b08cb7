# QR code generator: the submit / reveal state machine

This project models the one piece of behaviour in the QR code generator page
(`src/App.jsx`, the `App` component). Everything else is rendering. The
behaviour is a small controller:

- a click on "Generate QR Code" submits the trimmed input text, unless it is
  blank or the same as the text submitted last;
- the submission asks `getQRCodeUrl` for an image URL;
- when the URL arrives, the old image is hidden and replaced;
- a 300 ms timer later reveals the new image and re-enables the button;
- a key-down on a blank field hides the image and forgets the submitted text.

The model has four modules:

- `Text` (`text.dfy`) models JavaScript's `String.prototype.trim`. It
  strips ECMAScript whitespace and line terminators from both ends.
  `TrimCharacterized` shows that any whitespace-only cut leaving
  non-whitespace ends is the trim.
- `QrService` (`qr_service.dfy`) models `getQRCodeUrl` as an `Outcome`
  (`Resolved(url)` or `Rejected(reason)`). `DataOf` reads the text back out
  of a request URL.
- `App` (`app.dfy`) holds the state and the events:
  - The four `useState` values are the fields of `AppState`.
  - The work the event loop still owes the component is kept in
    `outstanding`. A `Request(text)` is a promise that has not settled. A
    `RevealTimer` is the 300 ms timer.
  - Each handler and continuation is a pure function: `OnClick`,
    `OnResolved`, `OnRejected`, `OnReveal` and `OnKeyDown`.
  - `Step` delivers one `Event`. An event is only delivered when it can
    happen: a click only while the button is enabled (`disabled={isLoading}`),
    a settle or a timer firing only for work that is outstanding.
  - `Run` and `Fetches` fold `Step` over a sequence of events and collect the
    texts `getQRCodeUrl` is called with.
- `AppProperties` (`app_properties.dfy`) proves `Inv` for every state
  reachable from `Init`, and proves the trace properties.

The handlers' contracts state when they do nothing. The blank case is stated
with `AllWhitespace`, independently of `Trim`; the duplicate case and the new
submitted text are stated with `Trim`. The partner of each transition is the invariant
`Inv`. The lemmas relate whole event sequences: single flight, duplicate
suppression, and the hide-then-show cycle.

The trimmed text goes into the query string unescaped (src/App.jsx:14), and
the model does the same: `QrCodeUrl` appends the raw text. Characters such as
`&`, `#`, `+` and `%` therefore reach the service as URL syntax, and the
service may decode a different text from the one typed: a typed `%41` is read
as `A`, and an inner tab is stripped by the browser's URL parser, so `a<TAB>b`
is read as `ab`. (A space is percent-encoded by the browser and arrives
intact.) `DataOf` and
`QrCodeUrlInjective` hold only at the level of the URL string, not of what the
service reads from it.

## Model

| member | source | states |
|---|---|---|
| `Text.Trim` | src/App.jsx:22 | the trimmed text is empty exactly when the input is whitespace only |
| `Text.TrimSpec` | src/App.jsx:22 | the trim is a middle part of the input with non-whitespace ends, and only whitespace was cut from either end |
| `Text.TrimCharacterized` | src/App.jsx:22 | any cut of whitespace from both ends that leaves non-whitespace ends equals the trim (uniqueness) |
| `Text.TrimIdempotent` | src/App.jsx:22 | trimming an already trimmed text changes nothing (so the submitted text, clicked again, trims to itself and meets the duplicate check) |
| `QrService.DataOf` | src/App.jsx:14 | a URL addresses the fixed 170x170 endpoint exactly when it starts with it, and the text read back restores the URL when appended |
| `QrService.QrCodeUrl` | src/App.jsx:11-19 | the promise rejects with "Invalid QR content" exactly when the text is empty; otherwise it resolves with an endpoint URL whose data reads back as the text, with no encoding |
| `QrService.QrCodeUrlInjective` | src/App.jsx:14 | two different texts never give the same request URL |
| `App.OnClick` | src/App.jsx:21-27 | blank input, or a repeat of the text submitted last, leaves the state unchanged; otherwise the text becomes the submitted one, loading starts, exactly one request for it is added, and the image and its visibility are untouched |
| `App.OnResolved` | src/App.jsx:28-31 | on resolve the image becomes the returned URL and is hidden; loading and the submitted text stay; the reveal timer is started |
| `App.OnRejected` | src/App.jsx:36-39 | on reject only loading changes, to false; the image, its visibility and the submitted text keep their values |
| `App.OnReveal` | src/App.jsx:31-34 | when the timer fires the image becomes visible and loading ends; nothing else changes |
| `App.OnKeyDown` | src/App.jsx:42-47 | a key-down on a blank field hides the image and clears the submitted text, leaving the image URL, loading and in-flight work alone; on a non-blank field nothing changes |
| `App.SettleRequest` | src/App.jsx:12-39 | a settled request runs the `.then` continuation with the endpoint URL for its text, or the `.catch` continuation when its text is empty; it is removed from the outstanding work |
| `App.Step` | src/App.jsx:72 | an event that cannot happen (a click while the button is disabled, a settle or timer with nothing outstanding) changes nothing |
| `AppProperties.InitInv` | src/App.jsx:5-8 | the initial state satisfies the invariant |
| `AppProperties.ClickInv` | src/App.jsx:21-27 | a click on an enabled button keeps the invariant |
| `AppProperties.SettleInv` | src/App.jsx:27-39 | a request settling keeps the invariant |
| `AppProperties.RevealInv` | src/App.jsx:31-34 | the reveal timer firing keeps the invariant |
| `AppProperties.StepInv` | src/App.jsx:21-47 | every deliverable event keeps the invariant |
| `AppProperties.RunInv` | src/App.jsx:21-47 | every sequence of events keeps the invariant |
| `AppProperties.SingleFlight` | src/App.jsx:25-38 | in every reachable state at most one request or reveal timer is outstanding, and one is outstanding exactly while loading (the button is disabled) |
| `AppProperties.RequestsAlwaysResolve` | src/App.jsx:15-23 | every outstanding request in a reachable state resolves with the endpoint URL for its text, so the reject branch is unreachable |
| `AppProperties.ShownImageIsQrCode` | src/App.jsx:81-91 | whenever the image region is rendered, its source is an endpoint URL for a non-empty text |
| `AppProperties.BlankClickIsNoOp` | src/App.jsx:22-23 | a click on whitespace-only input changes nothing and requests nothing |
| `AppProperties.PreValueChanges` | src/App.jsx:23-45 | the submitted text changes only by an accepted click, which requests the new text, or by a key-down on a blank field, which clears it |
| `AppProperties.RepeatedTextFetchedAtMostOnce` | src/App.jsx:22-24 | any run of clicks with the same trimmed text, with any settles and timers in between, makes at most one request, and none once that text is the submitted one |
| `AppProperties.DoubleClickFetchesOnce` | src/App.jsx:70-72 | two clicks with the same text request it no more often than the first click alone: after an accepted first click the disabled button (line 72) drops the second, and after a turned-away first click nothing changed, so the second is turned away too (the duplicate comparison of line 23 is what `RepeatedTextFetchedAtMostOnce` exercises) |
| `AppProperties.NoRetryAfterFailure` | src/App.jsx:23-39 | a rejection leaves `preValue` as it was, so a click whose trimmed text equals it is still a no-op |
| `AppProperties.IssuedIsNewRequest` | src/App.jsx:23-27 | the counted fetches are the model's requests: a click appends exactly the issued request to the outstanding work, and no other event adds a request that was not already outstanding |
| `AppProperties.ResubmittingSubmittedTextIsNoOp` | src/App.jsx:22-24 | after a completed click, resolve and reveal cycle the button is enabled again, and a click with the submitted text itself in the field fails the duplicate check of line 23: nothing changes and nothing is requested |
| `AppProperties.AcceptedClickFromIdle` | src/App.jsx:22-27 | from an idle state an accepted click requests exactly the trimmed text and leaves the display alone |
| `AppProperties.ResolveAlone` | src/App.jsx:28-31 | when the only request resolves, the image for its text is in place and hidden, and loading continues |
| `AppProperties.RevealAlone` | src/App.jsx:31-34 | when the only reveal timer fires, the image is shown and nothing is outstanding |
| `AppProperties.SuccessCycle` | src/App.jsx:21-34 | click, resolve and reveal from idle: one fetch of the trimmed text, visibility goes from hidden to shown, and the button ends enabled |
| `AppProperties.TwoSubmissions` | src/App.jsx:21-34 | two different texts submitted in turn are fetched in order, and the image shown at the end is the second one |
| `AppProperties.ClearAfterDisplay` | src/App.jsx:42-47 | clearing the field hides the image and clears the submitted text without a fetch; the same text can then be submitted again |
| `AppProperties.HelloScenario` | src/App.jsx:14-34 | "hello" is fetched once at the 170x170 endpoint; the image is hidden after the response and shown after the timer |
| `AppProperties.StaleResponseIsStillShown` | src/App.jsx:27-47 | clearing the field while a request is in flight does not cancel it: its image is still revealed |
| `AppProperties.UnguardedClickBreaksSingleFlight` | src/App.jsx:70-72 | the click handler has no guard of its own, so without the disabled button a second request could be outstanding; with it the second click is not delivered |

## Left out

- Rendering, Tailwind classes and the framer-motion animations (src/App.jsx:49-100). The only part kept is that the image enters exactly when `qrVisible` becomes true and starts to leave when it becomes false; its 0.5 s exit animation is not modelled.
- Real time. The 1000 ms delay inside `getQRCodeUrl` is the `Settle` event. The 300 ms reveal delay is the `RevealFires` event. Either can happen after any other event that is possible at that point.
- The image load. `getQRCodeUrl` never contacts the service; it only resolves a URL string after a timer. The browser loads that URL only when the `<img>` at src/App.jsx:90-91 is rendered, and nothing handles that load (there is no `onLoad` or `onError`), so it has no effect on the state.
- `console.error` in the `.catch` continuation. It is logging and does not change the state.
- The `.catch` continuation also catches exceptions thrown by the `.then` continuation. That continuation only sets state and cannot throw, so this path is not modelled.
- React internals: state batching, re-rendering, and reading the field through `inputRef`. Each handler receives the text it reads as an event argument.
- `onKeyDown` runs before the keystroke changes the field. The model takes whatever text the handler reads and does not model DOM event order.
- Whitespace: `IsWhitespace` lists the ECMAScript WhiteSpace and LineTerminator code points of current Unicode. Dafny characters are Unicode scalar values, so JavaScript's UTF-16 lone surrogates cannot be represented. They are not whitespace, so this does not affect trimming.
- Percent-encoding of the text. The code does not do it, so neither does the model.
- Tagging requests with sequence numbers to drop stale responses. The code does not do it. `StaleResponseIsStillShown` records the resulting behaviour.

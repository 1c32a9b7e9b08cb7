/**
 The `App` component of src/App.jsx as an event-driven state machine.

 The four pieces of React state become the fields of `AppState`. The work the
 JavaScript event loop still owes the component -- a promise from
 `getQRCodeUrl` that has not settled, a 300 ms reveal timer that has not
 fired -- is kept explicitly in `outstanding`. Every handler and every
 continuation is a pure transition function, and `Step` delivers one event.
 */
module App {
  import opened Text
  import opened QrService

  /** Work scheduled but not yet completed. */
  datatype Op =
    | Request(text: string)   // a `getQRCodeUrl(text)` promise that has not settled
    | RevealTimer             // the 300 ms timer started by the `.then` continuation

  datatype AppState = AppState(
    preValue: string,      // the text last submitted
    imageUrl: string,      // the image source shown in the result region
    qrVisible: bool,       // whether the result region is rendered
    loading: bool,         // the button is disabled while this holds
    outstanding: seq<Op>)

  /** Initial values of the four `useState` hooks; nothing is scheduled. */
  const Init: AppState := AppState("", "", false, false, [])

  /** The discrete things that can happen to the component. The input text is
      the value the handler reads from the field. */
  datatype Event =
    | Click(input: string)      // the "Generate QR Code" button is clicked
    | Settle(k: nat)            // the k-th outstanding request settles
    | RevealFires(k: nat)       // the k-th outstanding reveal timer fires
    | KeyDown(input: string)    // a key goes down in the input field

  /** The click handler goes ahead: the trimmed text is non-empty and differs
      from the text submitted last. */
  predicate Accepts(preValue: string, input: string) {
    Trim(input) != [] && Trim(input) != preValue
  }

  /** `handleGenButtonClick`. Blank input and a repeat of the text submitted
      last leave everything as it was and start nothing. Otherwise the trimmed
      text becomes the submitted text, the button is disabled, one request for
      that text is started, and the displayed image is not touched. */
  function OnClick(s: AppState, input: string): (r: AppState)
    ensures AllWhitespace(input) ==> r == s
    ensures Trim(input) == s.preValue ==> r == s
    ensures !AllWhitespace(input) && Trim(input) != s.preValue ==>
      && r.preValue == Trim(input) && r.preValue != []
      && r.loading
      && r.imageUrl == s.imageUrl && r.qrVisible == s.qrVisible
      && r.outstanding == s.outstanding + [Request(r.preValue)]
  {
    var qvalue := Trim(input);
    if !Accepts(s.preValue, input) then s
    else s.(preValue := qvalue, loading := true, outstanding := s.outstanding + [Request(qvalue)])
  }

  /** The `.then` continuation: the new image replaces the old one while the
      result region is hidden, the button stays disabled, and the reveal timer
      is started. The submitted text is kept. */
  function OnResolved(s: AppState, url: string): (r: AppState)
    ensures r.imageUrl == url && !r.qrVisible
    ensures r.loading == s.loading && r.preValue == s.preValue
    ensures r.outstanding == s.outstanding + [RevealTimer]
  {
    s.(imageUrl := url, qrVisible := false, outstanding := s.outstanding + [RevealTimer])
  }

  /** The `.catch` continuation: only the button is re-enabled. The image,
      its visibility and the submitted text all keep their values. */
  function OnRejected(s: AppState): (r: AppState)
    ensures !r.loading
    ensures r.imageUrl == s.imageUrl && r.qrVisible == s.qrVisible && r.preValue == s.preValue
    ensures r.outstanding == s.outstanding
  {
    s.(loading := false)
  }

  /** The reveal timer's callback: the result region appears and the button
      is re-enabled. */
  function OnReveal(s: AppState): (r: AppState)
    ensures r.qrVisible && !r.loading
    ensures r.imageUrl == s.imageUrl && r.preValue == s.preValue && r.outstanding == s.outstanding
  {
    s.(qrVisible := true, loading := false)
  }

  /** `handleKeyDown`. With a blank field the result region is hidden and the
      submitted text forgotten; the image URL, the button and anything in
      flight are left alone. With any other text nothing changes. */
  function OnKeyDown(s: AppState, input: string): (r: AppState)
    ensures AllWhitespace(input) ==>
      && !r.qrVisible && r.preValue == []
      && r.imageUrl == s.imageUrl && r.loading == s.loading && r.outstanding == s.outstanding
    ensures !AllWhitespace(input) ==> r == s
  {
    if Trim(input) == [] then s.(qrVisible := false, preValue := []) else s
  }

  /** The scheduled work with its k-th entry taken out. */
  function Without(ops: seq<Op>, k: nat): (r: seq<Op>)
    requires k < |ops|
    ensures |r| == |ops| - 1
    ensures forall i :: 0 <= i < k ==> r[i] == ops[i]
    ensures forall i :: k <= i < |r| ==> r[i] == ops[i + 1]
  {
    ops[..k] + ops[k + 1..]
  }

  /** Which events can happen. The button is disabled while `loading`, so the
      browser delivers no click then; a request can only settle and a timer
      only fire while it is outstanding. Key-downs can always happen. */
  predicate Enabled(s: AppState, e: Event) {
    match e
    case Click(_) => !s.loading
    case Settle(k) => k < |s.outstanding| && s.outstanding[k].Request?
    case RevealFires(k) => k < |s.outstanding| && s.outstanding[k].RevealTimer?
    case KeyDown(_) => true
  }

  /** A request settles the way `getQRCodeUrl` decides for its text, and the
      matching continuation runs. */
  function SettleRequest(s: AppState, k: nat): (r: AppState)
    requires k < |s.outstanding| && s.outstanding[k].Request?
    ensures QrCodeUrl(s.outstanding[k].text).Resolved? ==>
      && r.imageUrl == Endpoint + s.outstanding[k].text
      && !r.qrVisible && r.loading == s.loading
      && r.outstanding == Without(s.outstanding, k) + [RevealTimer]
    ensures QrCodeUrl(s.outstanding[k].text).Rejected? ==>
      && r.imageUrl == s.imageUrl && r.qrVisible == s.qrVisible && !r.loading
      && r.outstanding == Without(s.outstanding, k)
    ensures r.preValue == s.preValue
  {
    var rest := s.(outstanding := Without(s.outstanding, k));
    match QrCodeUrl(s.outstanding[k].text)
    case Resolved(url) => OnResolved(rest, url)
    case Rejected(_) => OnRejected(rest)
  }

  /** Delivers one event. An event that cannot happen in the current state
      changes nothing. */
  function Step(s: AppState, e: Event): (r: AppState)
    ensures !Enabled(s, e) ==> r == s
  {
    if !Enabled(s, e) then s
    else
      match e
      case Click(input) => OnClick(s, input)
      case Settle(k) => SettleRequest(s, k)
      case RevealFires(k) => OnReveal(s.(outstanding := Without(s.outstanding, k)))
      case KeyDown(input) => OnKeyDown(s, input)
  }

  /** The texts for which an event starts a request. */
  function Issued(s: AppState, e: Event): seq<string> {
    if e.Click? && Enabled(s, e) && Accepts(s.preValue, e.input) then [Trim(e.input)] else []
  }

  /** Delivers a sequence of events in order. */
  function Run(s: AppState, es: seq<Event>): AppState
    decreases |es|
  {
    if es == [] then s else Run(Step(s, es[0]), es[1..])
  }

  /** The texts `getQRCodeUrl` is called with, in order, while a sequence of
      events is delivered. */
  function Fetches(s: AppState, es: seq<Event>): seq<string>
    decreases |es|
  {
    if es == [] then [] else Issued(s, es[0]) + Fetches(Step(s, es[0]), es[1..])
  }
}

/**
 What holds of the component over any sequence of events delivered from its
 initial state: single flight, the shape of the displayed image, the
 suppression of blank and repeated submissions, and the success cycle.
 */
module AppProperties {
  import opened Text
  import opened QrService
  import opened App

  /** The invariant of every reachable state.
      - At most one piece of work is outstanding, and one is outstanding
        exactly while the button is disabled.
      - Every outstanding request is for a non-empty text.
      - The image source is either the initial empty string or a request URL
        for a non-empty text, and it is non-empty whenever it is shown or
        about to be revealed. */
  ghost predicate Inv(s: AppState) {
    && |s.outstanding| <= 1
    && (s.loading <==> |s.outstanding| == 1)
    && (forall i :: 0 <= i < |s.outstanding| && s.outstanding[i].Request? ==> s.outstanding[i].text != [])
    && (s.imageUrl == [] || IsQrUrl(s.imageUrl))
    && (s.qrVisible ==> s.imageUrl != [])
    && (forall i :: 0 <= i < |s.outstanding| && s.outstanding[i].RevealTimer? ==> s.imageUrl != [])
  }

  lemma InitInv()
    ensures Inv(Init)
  {
  }

  lemma ClickInv(s: AppState, input: string)
    requires Inv(s) && !s.loading
    ensures Inv(OnClick(s, input))
  {
    if Accepts(s.preValue, input) {
      var r := OnClick(s, input);
      assert r.imageUrl == s.imageUrl && r.qrVisible == s.qrVisible;
      assert s.outstanding == [] && r.outstanding == [Request(Trim(input))];
      assert Trim(input) != [];
    }
  }

  lemma SettleInv(s: AppState, k: nat)
    requires Inv(s) && k < |s.outstanding| && s.outstanding[k].Request?
    ensures Inv(SettleRequest(s, k))
  {
    var t := s.outstanding[k].text;
    assert k == 0 && t != [];
    var r := SettleRequest(s, k);
    assert r.outstanding == [RevealTimer];
    assert IsQrUrl(r.imageUrl);
  }

  lemma RevealInv(s: AppState, k: nat)
    requires Inv(s) && k < |s.outstanding| && s.outstanding[k].RevealTimer?
    ensures Inv(OnReveal(s.(outstanding := Without(s.outstanding, k))))
  {
    assert k == 0 && s.imageUrl != [];
  }

  /** Every event keeps the invariant. */
  lemma StepInv(s: AppState, e: Event)
    requires Inv(s)
    ensures Inv(Step(s, e))
  {
    if Enabled(s, e) {
      match e
      case Click(input) => ClickInv(s, input);
      case Settle(k) => SettleInv(s, k);
      case RevealFires(k) => RevealInv(s, k);
      case KeyDown(input) =>
    }
  }

  /** Every sequence of events keeps the invariant. */
  lemma {:induction false} RunInv(s: AppState, es: seq<Event>)
    requires Inv(s)
    ensures Inv(Run(s, es))
    decreases |es|
  {
    if es != [] {
      StepInv(s, es[0]);
      RunInv(Step(s, es[0]), es[1..]);
    }
  }

  /** Single flight: from the initial state, whatever happens, at most one
      request is ever outstanding, and a request or reveal timer is
      outstanding exactly while the button is disabled. */
  lemma SingleFlight(es: seq<Event>)
    ensures var s := Run(Init, es);
      && |s.outstanding| <= 1
      && (s.loading <==> |s.outstanding| == 1)
  {
    InitInv();
    RunInv(Init, es);
  }

  /** The rejection branch of `getQRCodeUrl` is unreachable: every request a
      click has started is for a non-empty text, so it resolves, with the
      request URL for that text. */
  lemma RequestsAlwaysResolve(es: seq<Event>, k: nat)
    requires var s := Run(Init, es); k < |s.outstanding| && s.outstanding[k].Request?
    ensures var s := Run(Init, es);
      QrCodeUrl(s.outstanding[k].text) == Resolved(Endpoint + s.outstanding[k].text)
  {
    InitInv();
    RunInv(Init, es);
  }

  /** The result region is only ever rendered with a request URL for a
      non-empty text, never with the initial empty image source. */
  lemma ShownImageIsQrCode(es: seq<Event>)
    ensures var s := Run(Init, es); s.qrVisible ==> IsQrUrl(s.imageUrl)
  {
    InitInv();
    RunInv(Init, es);
  }

  /** A click on blank input changes nothing and requests nothing. */
  lemma BlankClickIsNoOp(s: AppState, input: string)
    requires AllWhitespace(input)
    ensures Step(s, Click(input)) == s && Issued(s, Click(input)) == []
  {
  }

  /** The requests `Issued` reports are the requests `Step` starts: a click
      adds exactly the issued request at the end of the outstanding work, and
      no other event adds a request that was not already outstanding. */
  lemma IssuedIsNewRequest(s: AppState, e: Event)
    ensures e.Click? ==>
      Step(s, e).outstanding
        == s.outstanding + (if Issued(s, e) == [] then [] else [Request(Issued(s, e)[0])])
    ensures !e.Click? ==>
      forall i :: 0 <= i < |Step(s, e).outstanding| && Step(s, e).outstanding[i].Request? ==>
        Step(s, e).outstanding[i] in s.outstanding
  {
    if !e.Click? && Enabled(s, e) {
      var r := Step(s, e);
      forall i | 0 <= i < |r.outstanding| && r.outstanding[i].Request?
        ensures r.outstanding[i] in s.outstanding
      {
        match e
        case Settle(k) =>
          var w := Without(s.outstanding, k);
          assert r.outstanding == w || r.outstanding == w + [RevealTimer];
          assert i < |w| && r.outstanding[i] == w[i];
          assert w[i] == s.outstanding[if i < k then i else i + 1];
        case RevealFires(k) =>
          assert r.outstanding[i] == s.outstanding[if i < k then i else i + 1];
        case KeyDown(_) =>
      }
    }
  }

  /** After a completed submission cycle the button is enabled again, and a
      click with the submitted text itself in the field is a duplicate: that
      text trims to itself, so it equals the submitted text, and nothing
      changes or is requested. */
  lemma ResubmittingSubmittedTextIsNoOp(s: AppState, t: string)
    requires !s.loading && s.outstanding == [] && Accepts(s.preValue, t)
    ensures var s3 := Run(s, Cycle(t));
      Step(s3, Click(s3.preValue)) == s3 && Issued(s3, Click(s3.preValue)) == []
  {
    SuccessCycle(s, t);
    TrimIdempotent(t);
  }

  /** The submitted text changes only through an accepted click, which
      requests its trimmed text, or through a key-down on a blank field,
      which clears it. */
  lemma PreValueChanges(s: AppState, e: Event)
    requires Step(s, e).preValue != s.preValue
    ensures (Issued(s, e) != [] && Step(s, e).preValue == Trim(e.input))
         || (e.KeyDown? && AllWhitespace(e.input) && Step(s, e).preValue == [])
  {
  }

  /** The events that leave the field's text equivalent to `t`: clicks whose
      trimmed text is that of `t`, key-downs on a non-blank field, and any
      request settling or timer firing. */
  ghost predicate Unchanged(t: string, es: seq<Event>) {
    forall i :: 0 <= i < |es| ==>
      && (es[i].Click? ==> Trim(es[i].input) == Trim(t))
      && (es[i].KeyDown? ==> !AllWhitespace(es[i].input))
  }

  /** Duplicate suppression: however often the button is clicked with the same
      text, and whatever the service does in between, at most one request is
      made, and none at all once that text is the submitted one. */
  lemma {:induction false} RepeatedTextFetchedAtMostOnce(s: AppState, t: string, es: seq<Event>)
    requires Unchanged(t, es)
    ensures |Fetches(s, es)| <= 1
    ensures Trim(t) == [] || Trim(t) == s.preValue ==> Fetches(s, es) == []
    decreases |es|
  {
    if es != [] {
      var e, s' := es[0], Step(s, es[0]);
      assert Unchanged(t, es[1..]) by {
        forall i | 0 <= i < |es[1..]| ensures es[1..][i] == es[i + 1] { }
      }
      RepeatedTextFetchedAtMostOnce(s', t, es[1..]);
      assert e.Click? ==> Trim(e.input) == Trim(t);
      if Issued(s, e) != [] {
        assert s'.preValue == Trim(t);
      } else if s'.preValue != s.preValue {
        PreValueChanges(s, e);
      }
    }
  }

  /** Clicking twice with the same text requests it at most once. When the
      first click is accepted the button is disabled and the second click is
      not delivered; when it is not, nothing changed and the second click is
      turned away for the same reason. */
  lemma DoubleClickFetchesOnce(s: AppState, t: string)
    ensures Fetches(s, [Click(t), Click(t)]) == Issued(s, Click(t))
  {
    assert Unchanged(t, [Click(t)]);
    RepeatedTextFetchedAtMostOnce(Step(s, Click(t)), t, [Click(t)]);
  }

  /** A failed request does not clear the submitted text, so clicking again
      with the same text does nothing: there is no retry. */
  lemma NoRetryAfterFailure(s: AppState, input: string)
    requires s.preValue == Trim(input)
    ensures Step(OnRejected(s), Click(input)) == OnRejected(s)
  {
  }

  /** Delivering two sequences one after the other. */
  lemma {:induction false} RunAppend(s: AppState, a: seq<Event>, b: seq<Event>)
    ensures Run(s, a + b) == Run(Run(s, a), b)
    ensures Fetches(s, a + b) == Fetches(s, a) + Fetches(Run(s, a), b)
    decreases |a|
  {
    if a == [] {
      assert a + b == b;
    } else {
      assert (a + b)[0] == a[0] && (a + b)[1..] == a[1..] + b;
      RunAppend(Step(s, a[0]), a[1..], b);
    }
  }

  /** Unfolding `Run` over short event sequences. */
  lemma RunTwo(s: AppState, a: Event, b: Event)
    ensures Run(s, [a, b]) == Step(Step(s, a), b)
  {
    assert [a, b][1..] == [b] && [b][1..] == [];
    assert Run(s, [a, b]) == Run(Step(s, a), [b]);
    assert Run(Step(s, a), [b]) == Run(Step(Step(s, a), b), []);
  }

  lemma RunFour(s: AppState, a: Event, b: Event, c: Event, d: Event)
    ensures Run(s, [a, b, c, d]) == Step(Step(Step(Step(s, a), b), c), d)
  {
    RunTwo(s, a, b);
    RunTwo(Step(Step(s, a), b), c, d);
    RunAppend(s, [a, b], [c, d]);
    assert [a, b] + [c, d] == [a, b, c, d];
  }

  /** One accepted submission with nothing else happening in between. */
  function Cycle(t: string): seq<Event> {
    [Click(t), Settle(0), RevealFires(0)]
  }

  /** An accepted click from an idle state starts exactly one request, for
      the trimmed text, and leaves the display alone. */
  lemma AcceptedClickFromIdle(s: AppState, t: string)
    requires !s.loading && s.outstanding == [] && Accepts(s.preValue, t)
    ensures var r := Step(s, Click(t));
      && r.loading && r.preValue == Trim(t) && r.outstanding == [Request(Trim(t))]
      && r.qrVisible == s.qrVisible && r.imageUrl == s.imageUrl
      && Issued(s, Click(t)) == [Trim(t)]
  {
  }

  /** The only outstanding request resolving: the image for its text is put
      in place, hidden, and the button stays disabled until the reveal. */
  lemma ResolveAlone(s: AppState, q: string)
    requires s.loading && q != [] && s.outstanding == [Request(q)]
    ensures var r := Step(s, Settle(0));
      && r.loading && !r.qrVisible && r.imageUrl == Endpoint + q
      && r.preValue == s.preValue && r.outstanding == [RevealTimer]
  {
  }

  /** The only outstanding reveal timer firing: the image appears and the
      button is enabled again. */
  lemma RevealAlone(s: AppState)
    requires s.loading && s.outstanding == [RevealTimer]
    ensures var r := Step(s, RevealFires(0));
      && !r.loading && r.qrVisible && r.imageUrl == s.imageUrl
      && r.preValue == s.preValue && r.outstanding == []
  {
  }

  /** The success cycle. From an idle state, an accepted click requests the
      trimmed text exactly once; when the request resolves the new image is in
      place but hidden and the button still disabled; when the reveal timer
      fires the image appears and the button is enabled again. */
  lemma SuccessCycle(s: AppState, t: string)
    requires !s.loading && s.outstanding == [] && Accepts(s.preValue, t)
    ensures var s1 := Step(s, Click(t)); var s2 := Step(s1, Settle(0)); var s3 := Step(s2, RevealFires(0));
      && s1.loading && s1.qrVisible == s.qrVisible && s1.imageUrl == s.imageUrl
      && s2.loading && !s2.qrVisible && s2.imageUrl == Endpoint + Trim(t)
      && s3 == Run(s, Cycle(t))
      && !s3.loading && s3.qrVisible && s3.imageUrl == Endpoint + Trim(t)
      && s3.preValue == Trim(t) && s3.outstanding == []
      && Fetches(s, Cycle(t)) == [Trim(t)]
  {
    var s1 := Step(s, Click(t));
    AcceptedClickFromIdle(s, t);
    var s2 := Step(s1, Settle(0));
    ResolveAlone(s1, Trim(t));
    var s3 := Step(s2, RevealFires(0));
    RevealAlone(s2);
    var c := Cycle(t);
    assert c[0] == Click(t) && c[1..][0] == Settle(0) && c[1..][1..] == [RevealFires(0)];
    assert Run(s2, [RevealFires(0)]) == s3 && Fetches(s2, [RevealFires(0)]) == [];
    assert Run(s1, c[1..]) == s3 && Fetches(s1, c[1..]) == [];
  }

  /** Two different texts submitted one after the other are both requested,
      in order, and the image shown at the end is the one for the second. */
  lemma TwoSubmissions(s: AppState, t1: string, t2: string)
    requires Inv(s) && !s.loading && Accepts(s.preValue, t1)
    requires Trim(t2) != [] && Trim(t2) != Trim(t1)
    ensures var r := Run(s, Cycle(t1) + Cycle(t2));
      && Fetches(s, Cycle(t1) + Cycle(t2)) == [Trim(t1), Trim(t2)]
      && r.qrVisible && r.imageUrl == Endpoint + Trim(t2) && !r.loading
  {
    SuccessCycle(s, t1);
    var m := Run(s, Cycle(t1));
    StepInv(s, Click(t1));
    StepInv(Step(s, Click(t1)), Settle(0));
    StepInv(Step(Step(s, Click(t1)), Settle(0)), RevealFires(0));
    SuccessCycle(m, t2);
    RunAppend(s, Cycle(t1), Cycle(t2));
  }

  /** Clearing the field after a result is shown hides it and forgets the
      submitted text without requesting anything; the same text can then be
      submitted again. */
  lemma ClearAfterDisplay(s: AppState, blank: string, t: string)
    requires AllWhitespace(blank) && !s.loading && Trim(t) != []
    ensures var r := Step(s, KeyDown(blank));
      && !r.qrVisible && r.preValue == [] && Issued(s, KeyDown(blank)) == []
      && Issued(r, Click(t)) == [Trim(t)]
  {
  }

  /** The "hello" scenario: one request for the URL ending in "hello"; the
      result region is hidden after the response and shown after the timer. */
  lemma HelloScenario()
    ensures var s1 := Step(Init, Click("hello"));
      var s2 := Run(Init, [Click("hello"), Settle(0)]);
      var s3 := Run(Init, Cycle("hello"));
      && Fetches(Init, Cycle("hello")) == ["hello"]
      && s1.outstanding == [Request("hello")]
      && QrCodeUrl("hello") == Resolved("https://api.qrserver.com/v1/create-qr-code/?size=170x170&data=hello")
      && !s2.qrVisible && s2.imageUrl == Endpoint + "hello"
      && s3.qrVisible && s3.imageUrl == Endpoint + "hello" && !s3.loading
  {
    HelloIsTrimmed();
    SuccessCycle(Init, "hello");
    RunTwo(Init, Click("hello"), Settle(0));
  }

  /** "hello" has no surrounding whitespace and is not blank. */
  lemma HelloIsTrimmed()
    ensures Trim("hello") == "hello" && Accepts(Init.preValue, "hello")
  {
    assert !IsWhitespace("hello"[0]);
    TrimCharacterized("hello", 0, "hello");
  }

  /** No staleness check: clearing the field while a request is in flight does
      not cancel it, and its image is still revealed afterwards. */
  lemma StaleResponseIsStillShown(t: string, blank: string)
    requires Trim(t) != [] && AllWhitespace(blank)
    ensures var r := Run(Init, [Click(t), KeyDown(blank), Settle(0), RevealFires(0)]);
      r.preValue == [] && r.qrVisible && r.imageUrl == Endpoint + Trim(t)
  {
    var s1 := Step(Init, Click(t));
    AcceptedClickFromIdle(Init, t);
    var s2 := Step(s1, KeyDown(blank));
    assert s2.preValue == [] && s2.outstanding == s1.outstanding && s2.loading;
    var s3 := Step(s2, Settle(0));
    ResolveAlone(s2, Trim(t));
    RevealAlone(s3);
    RunFour(Init, Click(t), KeyDown(blank), Settle(0), RevealFires(0));
  }

  /** Why the button must be disabled while loading: the click handler itself
      does not check `loading`, so a second click with different text would
      start a second request while the first is still outstanding. */
  lemma UnguardedClickBreaksSingleFlight(a: string, b: string)
    requires Trim(a) != [] && Trim(b) != [] && Trim(a) != Trim(b)
    ensures OnClick(OnClick(Init, a), b).outstanding == [Request(Trim(a)), Request(Trim(b))]
    ensures Step(Step(Init, Click(a)), Click(b)).outstanding == [Request(Trim(a))]
  {
    var s1 := OnClick(Init, a);
    assert Accepts(Init.preValue, a);
    assert s1.preValue == Trim(a) && s1.loading && s1.outstanding == [Request(Trim(a))];
    assert Accepts(s1.preValue, b);
    assert Step(Init, Click(a)) == s1;
    assert !Enabled(s1, Click(b));
  }
}

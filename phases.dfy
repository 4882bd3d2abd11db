// The second and third phases of the client test: the ping-pong exchange,
// whose `onmessage` handler checks each incoming text against the expected
// round text, counts rounds and replies, and the close phase. Each phase
// turns channel events into one promise that settles at most once.
//
// The handlers run one at a time, so each event is one call on the phase
// object. Each handler method is specified by a pure step function on an
// abstract state; the lemmas about the step functions and about runs of
// events state what the harness relies on.

module Phases {
  import opened StringSearch
  import opened Messages

  /** Round trips after which the exchange phase succeeds. */
  const PingPongCount: nat := 5

  /** What the channel carries: a text and a producer-assigned timestamp. */
  datatype WsMessage = WsMessage(text: string, timestamp: int)

  /** Why a phase's promise was rejected. */
  datatype RejectReason =
    | Mismatch                    // the received text is not the expected round text
    | ChannelError(error: string) // the payload of an `error` event

  /** The state of a phase's promise. */
  datatype Settlement = Pending | Resolved | Rejected(reason: RejectReason)

  /**
   * Calling `resolve` or `reject` on a promise: a pending promise takes the
   * outcome, a settled one ignores the call.
   */
  function Settle(s: Settlement, outcome: Settlement): (r: Settlement)
    requires outcome != Pending
    ensures r != Pending
    ensures s != Pending ==> r == s
    ensures s == Pending ==> r == outcome
  {
    if s == Pending then outcome else s
  }

  /**
   * The first `resolve` or `reject` wins: once a promise has taken an
   * outcome, settling it again with any other outcome leaves it as it was.
   */
  lemma SettleFirstWins(s: Settlement, a: Settlement, b: Settlement)
    requires a != Pending && b != Pending
    ensures Settle(Settle(s, a), b) == Settle(s, a)
    ensures Settle(s, a) == s || s == Pending
  {
  }

  /** A channel event, delivered to whichever handler the current phase installed. */
  datatype Event =
    | MessageEvent(msg: WsMessage, now: int) // `now` is the clock reading while it is handled
    | ErrorEvent(error: string)
    | CloseEvent

  /**
   * The channel as the harness uses it: it records every `send` and
   * whether `close` was requested. Delivery and the network are not modelled.
   */
  class IcWebSocket {
    var sent: seq<WsMessage>
    var closeRequested: bool

    constructor ()
      ensures sent == [] && !closeRequested
    {
      sent := [];
      closeRequested := false;
    }

    method Send(m: WsMessage)
      modifies this
      ensures sent == old(sent) + [m]
      ensures closeRequested == old(closeRequested)
    {
      sent := sent + [m];
    }

    method Close()
      modifies this
      ensures closeRequested
      ensures sent == old(sent)
    {
      closeRequested := true;
    }
  }

  // ---------------------------------------------------------------------
  // The exchange phase, abstractly

  /**
   * The exchange phase: the round counter, its promise, everything sent on
   * the channel so far, and whether a failed `expect` aborted a handler.
   */
  datatype ExchangeState = ExchangeState(
    counter: nat,
    settlement: Settlement,
    sent: seq<WsMessage>,
    assertionFailed: bool)

  /** The exchange phase when its promise is created: nothing received, nothing sent. */
  const ExchangeStart: ExchangeState := ExchangeState(0, Pending, [], false)

  /** The reply to an accepted text: the text plus "-pong", stamped with the clock. */
  function Reply(msg: WsMessage, now: int): (r: WsMessage)
  {
    WsMessage(msg.text + "-pong", now)
  }

  /**
   * The `onmessage` handler of the exchange phase. A text other than the
   * expected round text rejects the promise. Otherwise the counter goes
   * up; at `PingPongCount` the promise resolves; below or above it, the
   * harness expects the text to hold as many markers as the new counter
   * (a failed expectation aborts the handler) and then replies.
   */
  function OnMessageStep(st: ExchangeState, msg: WsMessage, now: int): (st': ExchangeState)
    ensures st'.counter == if msg.text == ExpectedMessage(st.counter) then st.counter + 1 else st.counter
    ensures st.settlement != Pending ==> st'.settlement == st.settlement
    ensures st'.sent == st.sent ||
            (msg.text == ExpectedMessage(st.counter) && st'.counter != PingPongCount &&
             st'.sent == st.sent + [Reply(msg, now)])
    ensures msg.text != ExpectedMessage(st.counter) ==>
              st' == st.(settlement := Settle(st.settlement, Rejected(Mismatch)))
  {
    if msg.text != ExpectedMessage(st.counter) then
      st.(settlement := Settle(st.settlement, Rejected(Mismatch)))
    else
      var counter := st.counter + 1;
      if counter == PingPongCount then
        st.(counter := counter, settlement := Settle(st.settlement, Resolved))
      else if |IndicesOf(Marker, msg.text)| != counter then
        st.(counter := counter, assertionFailed := true)
      else
        st.(counter := counter, sent := st.sent + [Reply(msg, now)])
  }

  /** The `onerror` handler of the exchange phase: reject with the error payload. */
  function OnErrorStep(st: ExchangeState, error: string): (st': ExchangeState)
    ensures st'.settlement != Pending
    ensures st.settlement == Pending ==> st'.settlement == Rejected(ChannelError(error))
    ensures st.settlement != Pending ==> st'.settlement == st.settlement
    ensures st'.counter == st.counter && st'.sent == st.sent && st'.assertionFailed == st.assertionFailed
  {
    st.(settlement := Settle(st.settlement, Rejected(ChannelError(error))))
  }

  /** One event during the exchange phase; it installs no `onclose` handler. */
  function ExchangeStep(st: ExchangeState, e: Event): (st': ExchangeState)
  {
    match e
    case MessageEvent(msg, now) => OnMessageStep(st, msg, now)
    case ErrorEvent(error) => OnErrorStep(st, error)
    case CloseEvent => st
  }

  /** The exchange phase after a sequence of events, handled in order. */
  function RunExchange(st: ExchangeState, evs: seq<Event>): (st': ExchangeState)
    decreases |evs|
  {
    if evs == [] then st else RunExchange(ExchangeStep(st, evs[0]), evs[1..])
  }

  /**
   * An accepted message never trips the marker-count expectation. It
   * raises the counter by one; when that reaches `PingPongCount` it settles
   * the promise as resolved and sends nothing, and otherwise it sends
   * exactly the reply, whose text is a prefix of the next expected text.
   */
  lemma AcceptedMessageStep(st: ExchangeState, msg: WsMessage, now: int)
    requires msg.text == ExpectedMessage(st.counter)
    ensures var st' := OnMessageStep(st, msg, now);
      st'.counter == st.counter + 1 &&
      st'.assertionFailed == st.assertionFailed &&
      (st'.counter == PingPongCount ==>
         st'.sent == st.sent && st'.settlement == Settle(st.settlement, Resolved)) &&
      (st'.counter != PingPongCount ==>
         st'.sent == st.sent + [Reply(msg, now)] && st'.settlement == st.settlement &&
         Reply(msg, now).text <= ExpectedMessage(st'.counter))
  {
    MarkerCount(st.counter);
    assert ExpectedMessage(st.counter + 1) == (msg.text + "-pong") + " ping";
  }

  /** Running the events and then handling one more is the run of the extended sequence. */
  lemma {:induction false} RunExchangeAppend(st: ExchangeState, evs: seq<Event>, e: Event)
    ensures RunExchange(st, evs + [e]) == ExchangeStep(RunExchange(st, evs), e)
    decreases |evs|
  {
    if evs != [] {
      assert (evs + [e])[1..] == evs[1..] + [e];
      RunExchangeAppend(ExchangeStep(st, evs[0]), evs[1..], e);
    }
  }

  /** Once settled, the exchange promise keeps its value whatever events follow. */
  lemma {:induction false} ExchangeSettlesOnce(st: ExchangeState, evs: seq<Event>)
    requires st.settlement != Pending
    ensures RunExchange(st, evs).settlement == st.settlement
    decreases |evs|
  {
    if evs != [] {
      ExchangeSettlesOnce(ExchangeStep(st, evs[0]), evs[1..]);
    }
  }

  /**
   * What holds in every reachable exchange state: while the promise is
   * pending the counter is below `PingPongCount`, reaching it settles the
   * promise, and the marker-count expectation has never failed.
   */
  ghost predicate ExchangeInv(st: ExchangeState)
  {
    (st.settlement == Pending ==> st.counter < PingPongCount) && !st.assertionFailed
  }

  /** Every single event keeps the exchange invariant. */
  lemma ExchangeStepInv(st: ExchangeState, e: Event)
    requires ExchangeInv(st)
    ensures ExchangeInv(ExchangeStep(st, e))
  {
    if e.MessageEvent? && e.msg.text == ExpectedMessage(st.counter) {
      AcceptedMessageStep(st, e.msg, e.now);
    }
  }

  /** Every run of events from the start keeps the exchange invariant. */
  lemma {:induction false} ExchangeInvariant(st: ExchangeState, evs: seq<Event>)
    requires ExchangeInv(st)
    ensures ExchangeInv(RunExchange(st, evs))
    ensures RunExchange(st, evs).counter >= st.counter
    decreases |evs|
  {
    if evs != [] {
      ExchangeStepInv(st, evs[0]);
      ExchangeInvariant(ExchangeStep(st, evs[0]), evs[1..]);
    }
  }

  /** The peer's texts for rounds 0, 1, ... arrive in order, one per event. */
  ghost predicate InOrder(evs: seq<Event>)
  {
    forall k :: 0 <= k < |evs| ==> evs[k].MessageEvent? && evs[k].msg.text == ExpectedMessage(k)
  }

  /**
   * The happy path: after the first `n <= PingPongCount` rounds arrive in
   * order the counter is `n`, the promise resolves exactly when `n` is
   * `PingPongCount`, and the replies to every round but the last were sent,
   * in order.
   */
  lemma {:induction false} HappyPath(evs: seq<Event>)
    requires |evs| <= PingPongCount && InOrder(evs)
    ensures var st := RunExchange(ExchangeStart, evs);
      st.counter == |evs| && !st.assertionFailed &&
      st.settlement == (if |evs| == PingPongCount then Resolved else Pending) &&
      |st.sent| == (if |evs| == PingPongCount then PingPongCount - 1 else |evs|) &&
      forall k :: 0 <= k < |st.sent| ==> st.sent[k] == Reply(evs[k].msg, evs[k].now)
    decreases |evs|
  {
    if evs != [] {
      var n := |evs| - 1;
      var init := evs[..n];
      assert evs == init + [evs[n]];
      assert InOrder(init) by {
        forall k | 0 <= k < |init| ensures init[k] == evs[k] { }
      }
      HappyPath(init);
      RunExchangeAppend(ExchangeStart, init, evs[n]);
      var st := RunExchange(ExchangeStart, init);
      AcceptedMessageStep(st, evs[n].msg, evs[n].now);
    }
  }

  /**
   * A wrong text in a round before the last (such as "wrong" in round 2)
   * rejects the promise as a mismatch; the counter and the sent messages
   * stay as they were.
   */
  lemma MismatchScenario(evs: seq<Event>, wrong: WsMessage, now: int)
    requires |evs| < PingPongCount && InOrder(evs)
    requires wrong.text != ExpectedMessage(|evs|)
    ensures var before := RunExchange(ExchangeStart, evs);
      RunExchange(ExchangeStart, evs + [MessageEvent(wrong, now)]) ==
        before.(settlement := Rejected(Mismatch)) &&
      before.counter == |evs| && |before.sent| == |evs|
  {
    HappyPath(evs);
    RunExchangeAppend(ExchangeStart, evs, MessageEvent(wrong, now));
  }

  /**
   * An error between rounds rejects the promise with its payload; the
   * counter stays at the number of rounds completed.
   */
  lemma ErrorScenario(evs: seq<Event>, error: string)
    requires |evs| < PingPongCount && InOrder(evs)
    ensures var st := RunExchange(ExchangeStart, evs + [ErrorEvent(error)]);
      st.settlement == Rejected(ChannelError(error)) && st.counter == |evs| && |st.sent| == |evs|
  {
    HappyPath(evs);
    RunExchangeAppend(ExchangeStart, evs, ErrorEvent(error));
  }

  // ---------------------------------------------------------------------
  // The exchange phase as the handlers run it

  /**
   * The state the exchange phase's handlers share: the round counter and
   * the promise they settle; sends go to the channel `ws`.
   */
  class ExchangePhase {
    const ws: IcWebSocket
    var messageCounter: nat
    var settlement: Settlement
    var assertionFailed: bool

    ghost function State(): (st: ExchangeState)
      reads this, ws
    {
      ExchangeState(messageCounter, settlement, ws.sent, assertionFailed)
    }

    /** Creating the promise installs the handlers; nothing is counted or sent yet. */
    constructor (channel: IcWebSocket)
      ensures ws == channel
      ensures State() == ExchangeState(0, Pending, channel.sent, false)
    {
      ws := channel;
      messageCounter := 0;
      settlement := Pending;
      assertionFailed := false;
    }

    /** `ws.onmessage` of the exchange phase. */
    method OnMessage(msg: WsMessage, now: int)
      modifies this, ws
      ensures State() == OnMessageStep(old(State()), msg, now)
      ensures ws.closeRequested == old(ws.closeRequested)
    {
      var expected := ReconstructWsMessage(messageCounter);
      if msg.text != expected {
        settlement := Settle(settlement, Rejected(Mismatch));
        return;
      }
      messageCounter := messageCounter + 1;
      var indices := GetIndicesOf("ping", msg.text);
      if messageCounter == PingPongCount {
        settlement := Settle(settlement, Resolved);
        return;
      }
      if |indices| != messageCounter {
        // the expectation throws, so the handler stops before sending
        assertionFailed := true;
        return;
      }
      ws.Send(WsMessage(msg.text + "-pong", now));
    }

    /** `ws.onerror` of the exchange phase. */
    method OnError(error: string)
      modifies this
      ensures State() == OnErrorStep(old(State()), error)
    {
      settlement := Settle(settlement, Rejected(ChannelError(error)));
    }

    /** The channel delivering one event to the handlers of this phase. */
    method Dispatch(e: Event)
      modifies this, ws
      ensures State() == ExchangeStep(old(State()), e)
      ensures ws.closeRequested == old(ws.closeRequested)
    {
      match e
      case MessageEvent(msg, now) => OnMessage(msg, now);
      case ErrorEvent(error) => OnError(error);
      case CloseEvent =>
    }
  }

  // ---------------------------------------------------------------------
  // The close phase

  /**
   * One event for the close phase's promise: `onclose` resolves it,
   * `onerror` rejects it; messages do not concern it.
   */
  function CloseStep(s: Settlement, e: Event): (r: Settlement)
    ensures s != Pending ==> r == s
    ensures e.CloseEvent? ==> r != Pending
    ensures e.ErrorEvent? ==> r != Pending
    ensures s == Pending && e.CloseEvent? ==> r == Resolved
    ensures s == Pending && e.ErrorEvent? ==> r == Rejected(ChannelError(e.error))
    ensures e.MessageEvent? ==> r == s
  {
    match e
    case CloseEvent => Settle(s, Resolved)
    case ErrorEvent(error) => Settle(s, Rejected(ChannelError(error)))
    case MessageEvent(_, _) => s
  }

  /** The close phase's promise after a sequence of events. */
  function RunClose(s: Settlement, evs: seq<Event>): (r: Settlement)
    decreases |evs|
  {
    if evs == [] then s else RunClose(CloseStep(s, evs[0]), evs[1..])
  }

  /** Once settled, the close promise keeps its value whatever events follow. */
  lemma {:induction false} CloseSettlesOnce(s: Settlement, evs: seq<Event>)
    requires s != Pending
    ensures RunClose(s, evs) == s
    decreases |evs|
  {
    if evs != [] {
      CloseSettlesOnce(CloseStep(s, evs[0]), evs[1..]);
    }
  }

  /**
   * The first `close` or `error` event decides the close phase: a close
   * resolves it, an error rejects it with its payload, and nothing after
   * changes that.
   */
  lemma {:induction false} CloseFirstEventDecides(evs: seq<Event>, i: nat)
    requires i < |evs| && !evs[i].MessageEvent?
    requires forall j :: 0 <= j < i ==> evs[j].MessageEvent?
    ensures RunClose(Pending, evs) ==
              if evs[i].CloseEvent? then Resolved else Rejected(ChannelError(evs[i].error))
    decreases i
  {
    if i == 0 {
      CloseSettlesOnce(CloseStep(Pending, evs[0]), evs[1..]);
    } else {
      CloseFirstEventDecides(evs[1..], i - 1);
    }
  }

  /** The promise of the close phase; creating it asks the channel to close. */
  class ClosePhase {
    const ws: IcWebSocket
    var settlement: Settlement

    constructor (channel: IcWebSocket)
      modifies channel
      ensures ws == channel && settlement == Pending
      ensures channel.closeRequested && channel.sent == old(channel.sent)
    {
      ws := channel;
      settlement := Pending;
      new;
      channel.Close();
    }

    /** `ws.onclose` of the close phase. */
    method OnClose()
      modifies this
      ensures settlement == CloseStep(old(settlement), CloseEvent)
    {
      settlement := Settle(settlement, Resolved);
    }

    /** `ws.onerror` of the close phase. */
    method OnError(error: string)
      modifies this
      ensures settlement == CloseStep(old(settlement), ErrorEvent(error))
    {
      settlement := Settle(settlement, Rejected(ChannelError(error)));
    }
  }
}

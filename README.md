# Ping-pong integrity harness of the IC WebSocket client test, in Dafny

This project models the client-side integration test of the IC WebSocket
gateway (`tests/integration/src/client.test.ts`). The test drives a
ping-pong exchange over an `IcWebSocket` channel and checks every round's
text. The model covers the following parts of it:

- `getIndicesOf`: a left-to-right, non-overlapping substring finder built on
  JavaScript's `String.prototype.indexOf`. It is module `StringSearch`, in
  `string_search.dfy`.
- `reconstructWsMessage`: the expected text of round `n`, which is `"ping"`
  followed by `n` copies of `"-pong ping"`. It is module `Messages`, in
  `messages.dfy`.
- The exchange phase and the close phase. Each phase wraps the channel's
  callbacks in a promise that settles at most once. The exchange phase's
  `onmessage` handler holds a round counter (`messageCounter`), checks each
  text against the expected round text, resolves after `pingPongCount` (5)
  rounds, checks the number of `"ping"` markers, and replies with the
  received text plus `"-pong"`. This is module `Phases`, in `phases.dfy`.

Handlers run one at a time, so each event is one method call on a phase
object (`ExchangePhase`, `ClosePhase`). The channel is an `IcWebSocket`
object that records what is sent and whether `close` was requested. Each
handler method is proved equal to a pure step function on an abstract state
(`OnMessageStep`, `OnErrorStep`, `ExchangeStep`, `CloseStep`). The lemmas
about those functions and about runs of events (`RunExchange`, `RunClose`)
state what the harness relies on.

Three behaviours of the code that the model keeps:

- `reconstructWsMessage` with a negative index returns `"ping"`, because its
  loop does not run. It does not reject the input.
- The handlers are never uninstalled. After the exchange promise has
  settled, further matching messages still raise the counter and still
  send replies. Only the settlement is fixed. So the counter is below
  `pingPongCount` only while the promise is pending (`ExchangeInv`); after
  resolution a sixth matching message raises it to 6 and is answered.
  Likewise, a later matching message after a mismatch is still accepted and
  answered.
- A failed `expect(indices.length).toBe(messageCounter)` throws inside the
  async handler. That aborts the handler before it sends, but it does not
  reject the phase's promise. The model records it as `assertionFailed`.
  `AcceptedMessageStep` and `ExchangeInvariant` prove that it never
  happens.

## Model

| member | source | states |
|---|---|---|
| `StringSearch.IndexOfFirst` | tests/integration/src/client.test.ts:37 | `indexOf` returns the least index at or after the start position (clamped to the string length) where the search string occurs, and -1 exactly when there is none |
| `StringSearch.GetIndicesOf` | tests/integration/src/client.test.ts:27-43 | the loop returns exactly the sequence `IndicesOf` describes: `[]` for an empty search string, otherwise each `indexOf` hit, resuming at `index + searchStr.length` |
| `StringSearch.IndicesFromSound` | tests/integration/src/client.test.ts:37-39 | every index collected after resuming at `from` is a true occurrence at or after `from`, and each lies at least the search-string length past every earlier one |
| `StringSearch.IndicesOfSound` | tests/integration/src/client.test.ts:37-39 | every returned index `i` satisfies `str[i..i+|searchStr|] == searchStr`; indices strictly increase and consecutive ones differ by at least `|searchStr|`, so matches never overlap |
| `StringSearch.IndicesOfEmpty` | tests/integration/src/client.test.ts:28-37 | the result is empty if and only if the search string is empty or never occurs in the text |
| `StringSearch.IndicesFromSkipsNothing` | tests/integration/src/client.test.ts:33-40 | no occurrence lies between a resume position (the start, then `index + searchStrLen`) and the next returned index, nor after the end of the last match |
| `StringSearch.IndicesOfCovers` | tests/integration/src/client.test.ts:37-40 | every occurrence of the search string is either returned or lies strictly inside a returned match |
| `StringSearch.IndicesFromShift` | tests/integration/src/client.test.ts:37-40 | scanning a prefixed string from past the prefix reports the scan of the unprefixed string, shifted by the prefix length |
| `Messages.ExpectedMessage` | tests/integration/src/client.test.ts:46-54 | the round-`n` text has length `4 + 10n` and starts with `"ping"` |
| `Messages.ReconstructWsMessage` | tests/integration/src/client.test.ts:46-54 | the loop builds `"ping"` plus `index` copies of `"-pong ping"` (the marker alone for a negative index), of length `4 + 10 * index` |
| `Messages.ExpectedMessagePrepend` | tests/integration/src/client.test.ts:46-54 | the round-`n+1` text is `"ping-pong "` followed by the round-`n` text |
| `Messages.MarkerPositions` | tests/integration/src/client.test.ts:94-100 | `getIndicesOf("ping", reconstructWsMessage(n))` finds the markers at `0, 10, ..., 10n` and no others |
| `Messages.MarkerCount` | tests/integration/src/client.test.ts:94-100 | `getIndicesOf("ping", reconstructWsMessage(n))` has exactly `n + 1` elements |
| `Phases.SettleFirstWins` | tests/integration/src/client.test.ts:83-98 | promise settlement: the first `resolve`/`reject` wins, so settling an already settled promise again with any outcome leaves it unchanged |
| `Phases.OnMessageStep` | tests/integration/src/client.test.ts:89-106 | the counter rises by one exactly when the text matches the expected round text; a mismatch rejects (if pending) and changes nothing else; at most one message is sent, and only the reply to an accepted text while the counter is not `pingPongCount`; a settled promise stays settled |
| `Phases.OnErrorStep` | tests/integration/src/client.test.ts:84-87 | an error turns a pending promise into `Rejected` with the error payload, in every state; a settled one keeps its value; counter, sends and the expectation flag are unchanged |
| `Phases.AcceptedMessageStep` | tests/integration/src/client.test.ts:94-105 | an accepted text raises the counter by exactly one and never fails the marker-count expectation; at `pingPongCount` it resolves and sends nothing; otherwise it sends exactly `text + "-pong"`, a prefix of the next expected text, and leaves the settlement alone |
| `Phases.ExchangeSettlesOnce` | tests/integration/src/client.test.ts:83-107 | once the exchange promise is settled, no later message, error or close event changes its value |
| `Phases.ExchangeStepInv` | tests/integration/src/client.test.ts:89-106 | each event keeps the invariant: pending implies the counter is below `pingPongCount`, and the marker-count expectation has never failed |
| `Phases.ExchangeInvariant` | tests/integration/src/client.test.ts:80-107 | every run of events keeps that invariant, and the counter never decreases |
| `Phases.HappyPath` | tests/integration/src/client.test.ts:80-107 | after rounds `0..n-1` (with `n <= 5`) arrive in order, the counter is `n`, the promise is resolved exactly when `n == 5`, and the replies to all rounds but the fifth were sent in order |
| `Phases.MismatchScenario` | tests/integration/src/client.test.ts:90-91 | a wrong text in round `n < 5` (such as `"wrong"` in round 2) rejects with the mismatch reason and leaves the counter at `n` and the sends unchanged |
| `Phases.ErrorScenario` | tests/integration/src/client.test.ts:84-87 | an error after `n < 5` rounds rejects with the error payload and leaves the counter at `n` |
| `Phases.ExchangePhase.constructor` | tests/integration/src/client.test.ts:80-83 | the exchange starts with counter 0, a pending promise and no failed expectation |
| `Phases.ExchangePhase.OnMessage` | tests/integration/src/client.test.ts:89-106 | the handler (which calls `reconstructWsMessage`, `getIndicesOf` and `ws.send`) moves the phase exactly as `OnMessageStep` says, and does not close the channel |
| `Phases.ExchangePhase.OnError` | tests/integration/src/client.test.ts:84-87 | the handler moves the phase exactly as `OnErrorStep` says |
| `Phases.ExchangePhase.Dispatch` | tests/integration/src/client.test.ts:84-106 | delivering any event moves the phase exactly as `ExchangeStep` says; a close event is ignored because this phase installs no `onclose` |
| `Phases.CloseStep` | tests/integration/src/client.test.ts:115-123 | on a pending close promise `onclose` resolves it and `onerror` rejects it with the payload; message events leave it alone; a settled promise keeps its value |
| `Phases.CloseSettlesOnce` | tests/integration/src/client.test.ts:114-126 | once the close promise is settled, no later event changes it |
| `Phases.CloseFirstEventDecides` | tests/integration/src/client.test.ts:114-126 | the first close or error event decides the close phase: close resolves it, error rejects it with the payload |
| `Phases.ClosePhase.constructor` | tests/integration/src/client.test.ts:114-126 | creating the close promise asks the channel to close and sends nothing |
| `Phases.ClosePhase.OnClose` | tests/integration/src/client.test.ts:120-123 | the handler settles the promise as `CloseStep` says for a close event |
| `Phases.ClosePhase.OnError` | tests/integration/src/client.test.ts:115-118 | the handler settles the promise as `CloseStep` says for an error event |
| `Phases.IcWebSocket.Send` | tests/integration/src/client.test.ts:102-105 | `send` appends the message to what the channel has sent |
| `Phases.IcWebSocket.Close` | tests/integration/src/client.test.ts:125 | `close` records the close request and sends nothing |

## Left out

- The gateway binary (`src/ic-websocket-gateway/src/main.rs`) is not part of this model. It holds key-pair files, logging, data directories, command-line parsing and the async server start-up, which are all I/O.
- Constructing `IcWebSocket` and its network, agent, actor and environment configuration (client.test.ts:1-16, 61-67). This is an external library. The model keeps only a recorder of `send` and `close` calls, and events arrive as method calls.
- The open phase (client.test.ts:60-77). Its test function returns as soon as it installs `onopen`/`onerror`. Those handlers settle nothing: `onopen` is empty and `onerror` only runs an `expect`.
- `Date.now()` (client.test.ts:104) becomes the parameter `now` of each message event. Its value is never checked.
- The jest timeout, `expect(...).resolves`, and `console` logging (client.test.ts:23, 74-75, 85, 109, 128) belong to the test framework.
- Async scheduling. The completion or failure of the awaited `ws.send` promise is not modelled, and each handler runs atomically.
- Phase overlap: the exchange phase's `onmessage` stays installed during the close phase. Each phase is modelled on its own, and `CloseStep` ignores message events.
- `Messages.ReconstructWsMessage`: takes an integer index, so a non-integer JavaScript number (which would run the loop up to its ceiling) is not modelled.
- Strings are sequences of Unicode scalar values, not of JavaScript's UTF-16 code units. After a character outside the Basic Multilingual Plane, the model's indices are one less per such character than JavaScript's (`getIndicesOf("ping", "x\u{1F600}ping")` is `[3]` in JavaScript, `[2]` here), and lone surrogates cannot be represented. The expected round texts are ASCII, and a text is only searched or answered after it equals one of them, so the harness's behaviour is unaffected. Counters are unbounded naturals, with no loss of precision past 2^53.

# Chat relay: presence and message visibility

A model of the chat server in `src/app.js`, with the web framework and the
database taken out. What is left is a small state machine over two
collections:

- **participants**: each name with the time of its last heartbeat, in
  milliseconds (`lastStatus`);
- **messages**: records `{from, to, text, type, time}`, in the order the
  listing query returns them, which the model takes to be insertion order.

Five operations act on it:

- **join**: `POST /participants`;
- **post a message**: `POST /messages`;
- **list messages**: `GET /messages`, with an optional `limit`;
- **heartbeat**: `POST /status`;
- **one tick of the inactivity sweep**: the body of the `setInterval` callback.

Each store call is one atomic step. The clock is passed in. `now` is the
millisecond reading that `Date.now()` gives. `time` is the formatted
`HH:mm:ss` string that goes into messages, and the model treats it as opaque.

Files:

- `messages.dfy` (module `Messages`): the message record, its three kinds, the
  broadcast address `"Todos"`, the join and departure notices, and counting
  notices in a log.
- `requests.dfy` (module `Requests`): parsed request bodies, the reply
  statuses, and the checks that the validation schemas perform on bodies and
  on `limit`.
- `visibility.dfy` (module `Visibility`): which messages a viewer is shown,
  JavaScript's `slice(-n)`, and the listing handler.
- `presence.dfy` (module `Presence`): the inactivity cutoff, the sweep's query,
  and the invariant that links the participants collection to the notices in
  the log.
- `chat_room.dfy` (module `ChatServer`): class `ChatRoom`. It holds the two
  collections as a `map` field and a `seq` field. Its handler methods change
  them, and the sweep is a loop.
- `scenarios.dfy` (module `Scenarios`): one client session on a fresh store.

The class invariant `ChatRoom.Valid` has two parts:

- every participant name is non-empty;
- `PresenceAgrees`: for every name, the log holds exactly one more join notice
  than departure notices while the name is a participant, and equal numbers
  while it is not.

Every handler preserves this invariant. It depends on clients never being able
to post a `status` message. One consequence: every present participant, and
every departed one, has a join notice in the log.

Notes on the code:

- The join schema rejects only the empty string, so a name made only of
  spaces is accepted.
- Both schemas reject members they do not list. For example, a join body with
  a second member gets 422.
- A sender that is not a participant gets 422, the same status as a malformed
  body. There is no separate error for it.
- The code has no message edit or delete, so the model has none.
- The eviction test is `lastStatus < now - 10000`.

## Model

| member | source | states |
|---|---|---|
| Requests.JoinName | src/app.js:25-30 | a join body is accepted only if it is exactly the one-member object `{name}` with a non-empty string name, and the result is that name |
| Requests.JoinNameAccepts | src/app.js:25-30 | conversely, every one-member body with a non-empty string name is accepted and gives back that name |
| Requests.ClientKind | src/app.js:73 | only "message" and "private_message" are accepted as `type`; the kind is never `status`; the result reads back to the given string, so it inverts `KindName` on client kinds |
| Requests.PostDraft | src/app.js:70-80 | a post body is accepted only if it is exactly `{to, text, type}` with non-empty strings for `to` and `text` and a client kind, so a client can never create a `status` message |
| Requests.PostDraftAccepts | src/app.js:70-80 | conversely, every such body is accepted, and it gives back exactly the fields that were sent |
| Visibility.Visible | src/app.js:115 | every listed message is a stored message that the viewer may see: it is addressed to the viewer, sent by the viewer, or addressed to "Todos"; the listing is never longer than the store |
| Visibility.VisibleIsSubsequence | src/app.js:119-123 | the listing keeps store order: it is a subsequence of the stored messages |
| Visibility.VisibleMultiplicity | src/app.js:121-123 | the listing holds every stored copy of each message the viewer may see, and no copy of any other message |
| Visibility.VisibleAppend | src/app.js:121-123 | listing a longer store gives the listing of the shorter store followed by the listing of what was added |
| Visibility.BroadcastReachesEveryone | src/app.js:115 | a message to "Todos", including every join and departure notice, is appended to every viewer's listing |
| Visibility.DirectReachesOnlyItsEnds | src/app.js:115 | a message to one name is appended to the listings of its sender and its addressee and leaves every other viewer's listing unchanged, including a request without a `user` header |
| Visibility.SliceFrom | src/app.js:117 | `slice(-n)` returns the last `min(n, length)` elements as a suffix of the array; a non-negative start drops that many elements from the front |
| Visibility.GetMessages | src/app.js:102-127 | 422 exactly when `limit` is present and is not an integer greater than 0; with no limit, the full listing; with limit `n`, the last `min(n, |listing|)` messages of the listing, as a suffix of it |
| Presence.JoinKeepsPresence | src/app.js:39-49 | admitting a new name together with its join notice preserves the agreement between participants and notices |
| Presence.PostKeepsPresence | src/app.js:89-95 | appending a message whose kind is not `status` preserves the agreement |
| Presence.EvictKeepsPresence | src/app.js:168-175 | removing a participant together with its departure notice preserves the agreement |
| Presence.PresentHasJoinNotice | src/app.js:39-49 | while the agreement holds, every present participant has a join notice in the log |
| Presence.DepartedHadJoined | src/app.js:167-175 | while the agreement holds, every name with a departure notice also has a join notice somewhere in the log (the counts do not fix the order) |
| Presence.DepartureLogSnoc | src/app.js:167-176 | evicting one more name and appending its notice extends a departure log: one notice per evicted name, and none for any other name |
| ChatServer.ChatRoom.Join | src/app.js:23-55 | an invalid body gives 422 and changes nothing; a name that is already present gives 409 and changes nothing; otherwise the name is added with `lastStatus = now`, no other participant changes, exactly one join notice to "Todos" is appended, and the reply is 201 |
| ChatServer.ChatRoom.PostMessage | src/app.js:66-100 | an invalid body, or a sender that is not a participant, gives 422 and appends nothing; otherwise exactly one message is appended, from the header user with the body's `to`, `text` and `type`, and the reply is 201; participants never change |
| ChatServer.ChatRoom.Heartbeat | src/app.js:129-153 | a missing or unknown user gives 404 and changes nothing; a known user gets `lastStatus = now` and the reply 200; other participants and all messages are unchanged |
| ChatServer.ChatRoom.Evict | src/app.js:167-176 | one callback of the sweep: the participant is deleted, then its departure notice is appended |
| ChatServer.ChatRoom.EvictAll | src/app.js:167-176 | every name in the query result is removed; existing messages are kept; the appended messages form a departure log for exactly those names |
| ChatServer.ChatRoom.Sweep | src/app.js:158-180 | afterwards the participants are exactly those with `lastStatus >= now - 10000`; no existing message is removed; exactly one departure notice per evicted participant is appended, none for anyone else; the number appended equals the number evicted |
| Scenarios.JoinPostRejoin | src/app.js:23-127 | on a fresh store, a join returns 201, a broadcast post returns 201, a second join under the same name returns 409, and the joiner's listing is its join notice followed by the post |

## Left out

- HTTP plumbing is not modelled: routing, CORS, JSON parsing and `app.listen` (src/app.js:1-13, src/app.js:155-156). Replies are the `Status` values. A JSON body that is not an object is not modelled; the schemas reject such a body anyway.
- The MongoDB client and connection (src/app.js:15-21) are not modelled. The collections are a `map` keyed by name and a `seq`. The `_id` field is dropped because names are unique.
- `GET /participants` (src/app.js:57-64) returns the participants collection as stored. In the model that is the `participants` field itself, so it has no operation of its own.
- joi's own machinery is not modelled. Its rules are written as predicates. Turning the `limit` query string into a number is abstracted: `Limit` is absent, a number, or not a number. joi's additional bound to safe integers (at most 2^53 - 1) is not modelled.
- Clocks are parameters: `Date.now()` is `now` and dayjs formatting is `time`. ChatRoom.Sweep stamps every departure notice with one `time`. The source formats the time separately in each callback.
- The store failure paths are not modelled: the 500 replies and the `console.log` calls. A store failure between a join's participant insert and its notice insert (src/app.js:39-49) would leave a participant without its notice. The model has no such failure, so it does not capture that state.
- The missing `return` after `res.sendStatus(404)` at src/app.js:132 is not modelled. Without a `user` header the lookup finds nothing, so the `res.sendStatus(404)` at src/app.js:139 runs after the first reply has been sent. That call throws, the `res.status(500).send(...)` in the catch at src/app.js:151 throws again, and the handler's promise is left rejected with nothing to handle it. The stored state is the same as in the modelled 404 path.
- Both listing queries (src/app.js:113-116, src/app.js:119-122) call `find()` without a sort, so the store returns documents in its natural order, which it does not promise to be insertion order. The model takes that order to be insertion order (the `messages` sequence), so `slice(-limit)` at src/app.js:117 means "the most recent `limit` messages" only under that assumption.
- Timer scheduling and concurrency are not modelled: the 15-second `setInterval` and the unawaited `async` callbacks of `forEach` (src/app.js:158, src/app.js:167). A tick is a sequential loop that evicts the found names in an arbitrary order. The model does not cover races between a heartbeat and a sweep, between overlapping ticks, or between two concurrent joins of one name (the check-then-insert at src/app.js:33-41).

# python-relp, modelled in Dafny

This project models two sequential cores of python-relp, a Python implementation of RELP, the Reliable Event Logging Protocol of rsyslog. It then proves properties of that model.

1. **The frame codec** (`relp/protocol.py`), in modules `Text` and `Protocol`.
   - A RELP frame is `"<txnr> <command> <len> <payload>\n"`.
   - The model covers the serialiser (`Frame.encode`, `encode_frame`) and the strict single-frame parser (`Frame.decode` with `validate_frame`).
   - It covers the buffer reassembler `Frame.decode_batch`, which has to stop cleanly on a partial frame.
   - It covers the `rsp` messages (`Ack`, `ack_frame`, `nack_frame`) and the `key=value` offer (`Offer`).
   - `Text` holds the Python string built-ins the codec relies on: `str(n)`, `int(s)`, `split` with and without a maximum, `join` and `rstrip('\n')`.
2. **The ACK bookkeeping and frame dispatch of a session** (`relp/session.py`), in module `Session`.
   - `AckManager` is a class over two maps: `events`, one entry per prepared key, and `values`, the delivered acks.
   - `RelpSession` is a class holding the transaction counter, three queues and an `AckManager`.
   - The three queues are `sendQueue` (behind `send_frame`), `written` (frames that `_ack` and `_ack_offer` write straight to the socket) and `recvQueue` (behind `recv`).
   - `send` is split into `Issue`, which prepares the ack, queues the frame and advances the counter, and `Complete`, which pops the ack and checks its code.
   - A blocking wait becomes a precondition.

The two loops of the codec stay loops:
- `decode_batch`'s `while data` is the method `Protocol.DecodeBatch`;
- the `for` loop of `Offer.from_frame` is `Protocol.OfferFromFrame`.

Each is proved equal to a recursive specification function, `DecodedBatch` and `DecodedOffer`, and the protocol's properties are proved about those functions. The session class keeps the invariant `Valid`: the transaction numbers handed out so far are exactly `1 .. txnr-1`, and each of them has an event in the ACK manager.

The model keeps the source's quirks as the code has them:
- `decode` checks the length before it strips the terminator;
- `decode_batch` never checks the command;
- `Ack.from_frame` fails on a message that holds a space;
- `Offer.from_frame` skips the first line;
- `put` stores the value before it finds out that there is no event;
- the `close` branch of `_handle_frame` that would stop a server can never be reached.

Errors are values of `Errors.Error`, one constructor per exception the source raises, carried in the `Result` and `Outcome` types of `Wrappers`. Files: `wrappers.dfy`, `errors.dfy`, `text.dfy`, `protocol.dfy`, `session.dfy`.

## Model

| member | source | states |
|---|---|---|
| Text.NatToString | relp/protocol.py:30 | `str(n)` of a non-negative integer is a non-empty run of digits with no space and no newline |
| Text.ParseNatToString | relp/protocol.py:43 | `int(str(n)) == n` for every non-negative `n` |
| Text.ParseNat | relp/protocol.py:57-58 | `int()` on a field: the value of a non-empty run of ASCII digits, nothing otherwise; see `ParseNatToString` for its inverse |
| Text.Split | relp/protocol.py:124 | `split(sep)` with no maximum; `SplitJoin` proves it undoes `Join` on separator-free fields |
| Text.Join | relp/protocol.py:109-113 | `sep.join(parts)`; `SplitJoin` states what splitting it gives back |
| Text.SplitN | relp/protocol.py:41 | `split(sep, n)` yields between 1 and `n + 1` fields |
| Text.SplitJoin | relp/protocol.py:108-114 | splitting a `join` of separator-free fields gives the fields back |
| Text.SplitNAfterField | relp/protocol.py:56 | a separator-free first field is cut at the first separator, and the split continues on the rest with one split fewer |
| Text.RStripNewlines | relp/protocol.py:44 | `rstrip('\n')` yields a prefix with no trailing newline, and only newlines were removed |
| Protocol.Encode | relp/protocol.py:28-30 | `Frame.encode`; stated by `EncodeFields`, and `BatchRoundTrip` and `DecodeEncodeFails` give what each decoder makes of it |
| Protocol.EncodeFrame | relp/protocol.py:168-172 | `encode_frame`, the encoding without the terminator; `DecodeEncodeFrame` is its round trip with `decode` |
| Protocol.ValidateFrame | relp/protocol.py:153-166 | `validate_frame`, its four checks in source order; each rejection is stated by one of the `DecodeRejects` lemmas below |
| Protocol.DecodedBatch | relp/protocol.py:47-76 | the reference definition of `decode_batch`; `DecodeBatch` is proved equal to it and the `Batch` lemmas below state its behaviour |
| Protocol.SplitFields | relp/protocol.py:41 | `split(' ', 3)` of four fields whose first three have no space recovers the four fields; the payload may hold spaces |
| Protocol.EncodeFields | relp/protocol.py:28-30 | `encode` is exactly txnr, command, the payload's character count and the payload plus `\n`, joined by spaces, and both numbers parse back |
| Protocol.Decode | relp/protocol.py:35-45 | a frame `decode` accepts has a valid command and a payload with no trailing newline |
| Protocol.DecodeEncodeFrame | relp/protocol.py:41-45 | `decode(encode_frame(f)) == f` exactly when the command matches `[a-zA-Z]{1,32}` and the message has no trailing newline |
| Protocol.DecodeEncodeFails | relp/protocol.py:28-30 | for a command without a space, `decode(encode(f))` fails: on the length, counted with the `\n` before the strip, or on a bad command first |
| Protocol.DecodeRejectsTxnr | relp/protocol.py:153-158 | a non-integer txnr field is rejected |
| Protocol.DecodeRejectsLength | relp/protocol.py:159-162 | a valid txnr with a non-integer length field is rejected |
| Protocol.DecodeRejectsCommand | relp/protocol.py:163-164 | valid numbers with a command outside `[a-zA-Z]{1,32}` are rejected |
| Protocol.DecodeRejectsLengthMismatch | relp/protocol.py:165-166 | valid fields whose length differs from the payload's character count are rejected |
| Protocol.DecodeBatch | relp/protocol.py:47-76 | the `while data` loop returns exactly what the recursive specification `DecodedBatch` returns |
| Protocol.BatchStep | relp/protocol.py:56-71 | one loop step cuts the payload by its length, requires the `\n` after it, and prepends the frame to the batch of the rest |
| Protocol.BatchStepFails | relp/protocol.py:62-73 | a step whose payload is followed by nothing raises the index error; one followed by a character other than `\n` raises the terminator error |
| Protocol.BatchAfterFrame | relp/protocol.py:56-71 | an encoded frame followed by anything decodes to that frame prepended to the batch of what follows |
| Protocol.BatchRoundTrip | relp/protocol.py:48-76 | `decode_batch(encode(f)) == ([f], "")` for every command without a space, whatever the payload holds |
| Protocol.BatchOfStream | relp/protocol.py:53-76 | a stream of encoded frames followed by a rest decodes to those frames, in order, before the batch of the rest |
| Protocol.BatchRoundTripMany | relp/protocol.py:53-76 | concatenated encodings decode to the same frames in the same order with an empty remainder |
| Protocol.BatchStopsOnPartial | relp/protocol.py:60-67 | after whole frames, a frame whose payload is shorter than its length returns the frames so far and that frame's text unchanged |
| Protocol.PrefixIsPartial | relp/protocol.py:60-67 | a frame cut inside its payload is such a partial frame |
| Protocol.BatchRejectsMissingTerminator | relp/protocol.py:69-73 | a payload followed by a character other than `\n` raises with that character, and the frames decoded before it are lost |
| Protocol.BatchRejectsEndAfterPayload | relp/protocol.py:69 | a payload with nothing after it raises rather than counting as partial |
| Protocol.BatchRejectsCutHeader | relp/protocol.py:56 | a frame cut inside its header fails to unpack |
| Protocol.BatchOfFramePrefix | relp/protocol.py:53-76 | any proper prefix of one encoded frame either raises or is handed back whole with no frame |
| Protocol.EncodeAllAppend | relp/protocol.py:53-76 | encoding two frame lists back to back is the encoding of the concatenated list |
| Protocol.BatchOfStreamPrefix | relp/protocol.py:53-76 | decoding any prefix of a stream either raises, or yields leading frames of the stream and hands back exactly the characters it did not consume |
| Protocol.BatchResumes | relp/protocol.py:53-76 | after a clean stop, the handed-back rest followed by the remaining input decodes to exactly the frames not yet returned |
| Protocol.BatchSkipsCommandCheck | relp/protocol.py:56-65 | a command that `decode` rejects still passes `decode_batch` |
| Protocol.DefaultAck | relp/protocol.py:85-88 | `Ack(txnr)` with its default code 200 and message "OK"; see `AckFrame` |
| Protocol.AckToFrame | relp/protocol.py:90-92 | `Ack.to_frame`, an `rsp` frame holding "code message"; its inverse is stated by `AckRoundTrip` |
| Protocol.AckFromFrame | relp/protocol.py:94-99 | `Ack.from_frame`, a two-way unpack of `split(' ', 2)`; see `AckRoundTrip` and `NackFrame` |
| Protocol.AckRoundTrip | relp/protocol.py:90-99 | `from_frame(to_frame(a)) == a` exactly when the message has no space; with a space the two-way unpack fails |
| Protocol.AckFrame | relp/protocol.py:174-178 | `ack_frame(t)` is the frame of `Ack(t)` (code 200, "OK") and is read back as that Ack |
| Protocol.NackFrame | relp/protocol.py:180-184 | `nack_frame(t, m)` is the frame of a code-500 Ack; it is read back exactly when `m` has no space, and fails to unpack otherwise |
| Protocol.OfferMessage | relp/protocol.py:108-114 | `Offer.message`, the three lines joined by `\n`; see `OfferMessageLines` |
| Protocol.OfferToFrame | relp/protocol.py:116-118 | `Offer.to_frame`, an `open` frame holding the message; `OfferRoundTrip` states what decoding it gives |
| Protocol.DecodedOffer | relp/protocol.py:120-132 | the reference definition of `Offer.from_frame`; `OfferFromFrame` is proved equal to it, and `OfferRoundTrip`, `OfferAfterPlaceholder` and `OfferWithoutHeaders` state its behaviour |
| Protocol.OfferMessageLines | relp/protocol.py:108-114 | when no field holds a newline, the offer message is three `key=value` lines joined by `\n`, and splitting on `\n` gives them back |
| Protocol.HeaderMapErrorPersists | relp/protocol.py:124-126 | once a header line fails to unpack, the whole loop fails with that error |
| Protocol.OfferFromFrame | relp/protocol.py:120-132 | the `for` loop over header lines returns exactly what the specification `DecodedOffer` returns |
| Protocol.HeaderLineOf | relp/protocol.py:126 | a line with exactly one `=` unpacks into its key and value |
| Protocol.HeadersOfThree | relp/protocol.py:123-126 | three well-formed header lines build the dictionary of their three pairs |
| Protocol.OfferRoundTrip | relp/protocol.py:108-132 | when no field holds a newline and the software and commands hold no `=`, decoding an encoded offer loses the version on the skipped first line, keeps the software, and splits the commands on `,` |
| Protocol.OfferAfterPlaceholder | relp/protocol.py:124-132 | with any newline-free line in front of an offer whose fields hold no newline and no `=`, all three headers come back |
| Protocol.OfferWithoutHeaders | relp/protocol.py:124-131 | a one-line message has no `commands` header and raises |
| Protocol.DefaultOfferDecodes | relp/protocol.py:101-132 | the default offer decodes to no version, software "python-relp" and commands ["syslog"] |
| Session.AckManager.constructor | relp/session.py:24-28 | both maps start empty |
| Session.AckManager.Prepare | relp/session.py:30-38 | fails if the key already has an event; otherwise adds exactly that key, unset, and leaves the values alone |
| Session.AckManager.Get | relp/session.py:40-48 | prepares the key if it has no event, returns and removes its value, fails if there is none, and never removes the event |
| Session.AckManager.Put | relp/session.py:50-63 | always stores the value; sets the key's event if there is one, and fails (value already stored) if there is none |
| Session.AckManager.Size | relp/session.py:65-67 | `len(events)`, set or not; `SizeIsIssued` proves it equals txnr - 1 in a session |
| Session.SizeIsIssued | relp/session.py:219-226 | after `send` prepares one key per transaction number, `size()` (relp/session.py:65-67) equals the number of transaction numbers handed out so far, because a key keeps its event after its ack is taken |
| Session.CardRange | relp/session.py:65-67 | a set that is exactly `1 .. n` has `n` elements, which turns the session invariant into the count above |
| Session.DeliveredValueReturned | tests/test_ackmanager.py:33-36 | after `prepare` and `put(k, v)`, `get(k)` returns `v`, the value is gone and the key is still counted |
| Session.ResolvedKeyStaysPrepared | relp/session.py:34-47 | a key whose value was already taken cannot be prepared again, and the size stays 1 |
| Session.PutWithoutEventKeepsValue | relp/session.py:54-59 | `put` without an event fails, yet a later `get` finds the value it stored |
| Session.GetPreparesUnknownKey | relp/session.py:44 | a timed-out `get` on an unknown key prepares it, so preparing it again fails |
| Session.OfferAckReadable | relp/session.py:207-210 | the ack that answers `open` is read back whole; its message splits into the three offer lines |
| Session.Dispatch | relp/session.py:143-170 | `rsp` is delivered; `close` and `syslog` are acked and queued in both modes; `open` gets the offer ack; `serverclose` stops a client and is refused by a server; anything else is a protocol error |
| Session.RelpSession.constructor | relp/session.py:75-85 | the counter starts at 1, every queue and both ACK maps are empty, and the invariant holds |
| Session.RelpSession.Issue | relp/session.py:217-226 | uses the current txnr, ends with its event prepared (the contract gives the resulting state, not the order in which the body prepares and queues), queues exactly that frame and advances the counter by one, keeping the invariant |
| Session.RelpSession.Complete | relp/session.py:228-234 | pops the arrived ack; code 500 fails with the ack's message, any other code passes, a missing value fails |
| Session.RelpSession.SendFrame | relp/session.py:236-238 | appends the frame at the end of the send queue and changes nothing else |
| Session.RelpSession.Recv | relp/session.py:240-243 | returns the oldest received frame and removes it |
| Session.RelpSession.WriteAck | relp/session.py:202-205 | writes the frame of `Ack(t)` |
| Session.RelpSession.WriteOfferAck | relp/session.py:207-210 | writes the frame of a code-200 ack whose message is the offer |
| Session.RelpSession.DeliverAck | relp/session.py:143-145 | parses the `rsp` frame and puts the Ack under its own txnr; a parse error changes nothing |
| Session.RelpSession.HandleFrame | relp/session.py:139-170 | what each `Dispatch` case writes, queues, stops or raises, with the ACK manager touched only for `rsp` and the invariant kept |
| Session.IssueAll | relp/session.py:79 | n sends on a new session queue their frames with txnrs 1..n in order, and the counter ends at n + 1 |
| Session.SendAcknowledged | relp/session.py:217-234 | a send whose ack arrives through `_handle_frame` completes normally |
| Session.SendNacked | relp/session.py:231-234 | a NACK without a space in its message makes the send fail with that message; with a space the `rsp` frame cannot be parsed and the ack never arrives |
| Session.ReceiveSyslog | relp/session.py:148-150 | a received `syslog` frame is acknowledged once and then handed out unchanged by `recv` |

## Left out

- Sockets, threads, the `_receiver` and `_sender` loops, `start`, `stop`'s shutdown and joins, `__enter__` and `__exit__` (relp/session.py:87-124, 172-200). These are I/O and concurrency, so the three sequences stand in for them.
- Interleaving: the model does not say in which order the send queue and the direct writes reach the socket.
- Session.RelpSession.HandleFrame: stopping a client is only the `serverclose` frame `stop` queues plus the `stopped` flag. The rest of `stop` is not modelled. In the source, `stop()` runs on the receiver thread here, so joining that thread (relp/session.py:118) raises `RuntimeError`; the model's `Stop` case returns `Pass` instead.
- The server-mode branch of `stop` (`send('close')`) is not modelled. `_handle_frame` never calls it, because its `close` branch cannot be reached.
- `RelpSession.offer` is not modelled. It is `send('open', Offer().message())`, which is `Issue("open", OfferMessage(DefaultOffer))` followed by `Complete`, with any error re-raised as a generic "Error during RELP offer" exception.
- Session.AckManager.Get: the optional timeout is the `timedOut` parameter, and the blocking wait is the precondition that the event is set or the wait timed out.
- Session.RelpSession.Complete: the wait for the ack is the precondition that its event is set. So a `send` whose ack never arrives is not modelled.
- Session.Dispatch: the mode is one of `Client` and `Server`. The source compares a free string, and a third mode value would be refused on `serverclose` like a server.
- Text.ParseNat: `int()` is restricted to non-empty runs of ASCII digits. Python also accepts surrounding whitespace, a sign and underscores, so negative lengths and their slicing are not modelled. One consequence: a blank line between two frames makes `DecodedBatch` fail with `NotAnInteger`, where Python's `int('\n2')` accepts the field.
- Protocol.AckToFrame: `RspCode` is modelled by its integer value, so `AckToFrame` encodes any code. In the source, `to_frame` reads `self.code.value` (relp/protocol.py:92), which only an `RspCode` has. An Ack built by `from_frame` carries a plain `int` code (relp/protocol.py:98-99), and its `to_frame` raises `AttributeError`. So `AckRoundTrip` also covers acks the source cannot encode. The session only encodes `RspCode.ACK` acks (relp/session.py:204-205 and 209-210).
- Lengths count characters of `str` (`seq<char>`), as the source does; byte-level UTF-8 encoding is not modelled.
- `parse_frame` is not modelled. It is dead code: nothing calls it, and its `rsp` branch always fails to unpack before it reaches the undefined `NAck`. Its other branch unpacks `split(' ', 4)`, so only a payload without a space gets through; it validates the four fields and returns them unconverted: the txnr stays a string and trailing newlines are kept.
- `ack_offer_frame` is not modelled. It always raises `NameError` on the undefined `offer_header`.
- `relp/server.py`, `relp/client.py`, logging, `relp/exceptions.py` (declarations only), `setup.py` and the examples hold no logic of the core.
- Exception messages are not modelled; only the kind of error, with the command or NACK message it carries, is.

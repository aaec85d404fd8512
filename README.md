# NFC card emulator: response resolution, relay framing and session tracking

This project models the core of an Android host-based card emulator. The emulator takes
ISO/IEC 7816-4 command APDUs from the NFC stack and answers each one. It checks the
command's framing at once. It then hands a well-formed command to a worker, which finds
the response in one of two places:

- the local command/response table (FileHandler), with the INS-driven lookup of
  `ResponseHandler`;
- a remote oracle over a socket, using `NetworkService`'s length-prefixed framing.

The worker's continuation delivers the response to the NFC stack and logs the exchange.
The session flag of `HostCardEmulatorService` marks where each communication starts.

Modules, one per component:

- `Apdu` (`apdu.dfy`) defines command and response APDUs. It also holds the ISOProtocol
  constants as a `Protocol` parameter, plus the framing predicate and the INS switch.
- `LookupTable` (`lookup_table.dfy`) holds FileHandler's parallel lists and the
  first-match search. The search compares either the whole command or only the INS
  digits of each entry.
- `Resolution` (`resolution.dfy`) gives the local resolver as a function (`Resolve`).
  Its lemmas state what the resolver promises.
- `Framing` (`framing.dfy`) defines the relay's wire format: one length byte, then the
  payload.
- `Network` (`network_service.dfy`) contains the `NetworkService` class over an
  in-memory socket.
- `Handler` (`response_handler.dfy`) contains the `ResponseHandler` class: the lookup
  loop, the case methods, the two kinds of unit of work and the mode switch.
- `Session` (`session.dfy`) defines the log and history entries and the session
  discipline of `isNewCommunication`.
- `CardEmulator` (`host_card_emulator.dfy`) contains the `HostCardEmulatorService`
  class and an end-to-end scenario. In the source, `isNewCommunication` is a static
  field. One service object here stands for that static state, so its constructor plays
  the part of the field's initialiser. A second service object would start a fresh flag;
  a second instance in the source would not reset it.

Code that is not part of this model:

- `ISOProtocol`, `Utils` and `FileHandler` are not part of this model.
  - Their constants are fields of a `Protocol` value. `WellFormed` assumes only three
    things about them: the ten INS codes are distinct 2-digit strings, the four status
    words are distinct, and the minimum length is at least 4.
  - `Utils.toHexString` and `Utils.hexStringToByteArray` are uninterpreted. A command
    carries its bytes and its hex form side by side. A table response is identified
    with its hex string (`FromHex`).
- Labels and log lines come from string resources, so they are opaque tokens.

Behaviour of the code that the model keeps:

- The unit of work for the local table validates the command a second time
  (ResponseHandler.java:57). It does not trust the earlier check.
- Calling `waitForResponse` on a stream that has ended does not return null: see
  "Left out".
- The label is not touched for a null command or an unsupported INS. It is overwritten
  only by a framing failure and by the ten cases.

## Model

| member | source | states |
|---|---|---|
| Apdu.Classify | app/src/main/java/com/okanatas/nfccardemulator/ResponseHandler.java:62-95 | The switch on the INS digits returns an instruction only if that instruction's constant equals the digits; it returns none only if no constant does |
| Apdu.ClassifyCode | app/src/main/java/com/okanatas/nfccardemulator/ResponseHandler.java:62-92 | With distinct constants, every instruction's own code is dispatched to that instruction's case |
| LookupTable.FirstMatch | app/src/main/java/com/okanatas/nfccardemulator/ResponseHandler.java:139-144 | The scan stops at the least index whose entry matches; it reaches the end when no entry matches |
| LookupTable.AnswerAtFirstMatch | app/src/main/java/com/okanatas/nfccardemulator/ResponseHandler.java:139-145 | First match wins: the response paired with the first matching entry is returned |
| LookupTable.AnswerOnMiss | app/src/main/java/com/okanatas/nfccardemulator/ResponseHandler.java:136-145 | With no matching entry, the case's default status word is returned |
| Handler.ResponseHandler.FindResponse | app/src/main/java/com/okanatas/nfccardemulator/ResponseHandler.java:153-163 | The for-loop with break returns the response of the first matching table entry, or the default when none matches |
| Handler.ResponseHandler.RunCase | app/src/main/java/com/okanatas/nfccardemulator/ResponseHandler.java:135-310 | Each of the ten case methods sets its own label, hit or miss, and answers with its matching rule and its miss default |
| Handler.ResponseHandler.FileHandlerResponse | app/src/main/java/com/okanatas/nfccardemulator/ResponseHandler.java:49-100 | The local unit of work produces exactly the response and label change that `Resolve` describes |
| Resolution.Resolve | app/src/main/java/com/okanatas/nfccardemulator/ResponseHandler.java:50-100 | The local worker always answers with a table response or one of the protocol's four status words. A null command never changes the label. The aborted-with-reason label is set exactly when the command is present but too short or of odd length |
| Resolution.RejectedCommandsAborted | app/src/main/java/com/okanatas/nfccardemulator/ResponseHandler.java:53-59 | Three kinds of command get "command aborted" and consult no table: a null command, one shorter than the minimum, and one of odd length. Only the framing failures set the aborted-with-reason label |
| Resolution.UnsupportedInsRejected | app/src/main/java/com/okanatas/nfccardemulator/ResponseHandler.java:93-94 | INS digits outside the ten codes give "instruction not supported". The table is not consulted and the label is kept |
| Resolution.WholeCommandResolution | app/src/main/java/com/okanatas/nfccardemulator/ResponseHandler.java:135-146 | SELECT, GET PROCESSING OPTIONS and READ RECORD answer with the response of the least entry equal to the whole command. On a miss, SELECT gives file not found, READ RECORD gives record not found and GET PROCESSING OPTIONS gives command aborted. The case label is set |
| Resolution.SameInsResolution | app/src/main/java/com/okanatas/nfccardemulator/ResponseHandler.java:153-164 | The seven INS-keyed instructions answer with the response of the least entry with the same INS digits. On a miss, READ BINARY gives record not found and the other six give command aborted. The case label is set |
| Resolution.SameInsIgnoresOperands | app/src/main/java/com/okanatas/nfccardemulator/ResponseHandler.java:209-220 | For INS-keyed instructions the answer depends on the INS byte only; CLA, P1, P2 and the data play no part |
| Resolution.TableEntryRoundTrip | app/src/main/java/com/okanatas/nfccardemulator/ResponseHandler.java:172-183 | Resolving a whole-command table entry that has no equal entry before it gives back that entry's response and the case's label |
| Resolution.SelectScenario | app/src/main/java/com/okanatas/nfccardemulator/ResponseHandler.java:135-146 | A one-entry SELECT table answers 9000 to its own command. A command differing only in its last digits gets file not found |
| Resolution.ReadBinaryScenario | app/src/main/java/com/okanatas/nfccardemulator/ResponseHandler.java:153-164 | A one-entry READ BINARY table answers AABB9000 to every valid command with INS B0 |
| Handler.ResponseHandler.GetResponse | app/src/main/java/com/okanatas/nfccardemulator/ResponseHandler.java:121-127 | The unit of work takes the network path iff the network mode is on, and otherwise the local path. It carries the command it was given |
| Handler.ResponseHandler.Run | app/src/main/java/com/okanatas/nfccardemulator/ResponseHandler.java:113-119 | A local unit of work answers `Resolve`'s response and touches no socket. A network unit of work sends the framed command, then returns the next framed payload, or null when the service is not live. It leaves the label alone |
| Handler.ResponseHandler.NetworkResponse | app/src/main/java/com/okanatas/nfccardemulator/ResponseHandler.java:113-118 | Sending writes the command's frame only when there is a command and the service is live. The response is the next framed payload from the peer, or null |
| Handler.ResponseHandler.SetUsingNetwork | app/src/main/java/com/okanatas/nfccardemulator/ResponseHandler.java:21-28 | Sets the mode flag to the argument. Switching on starts a connect worker when not running; switching off starts a disconnect worker when running |
| Framing.FrameRoundTrip | app/src/main/java/com/okanatas/nfccardemulator/NetworkService.java:84-86 | A payload of at most 255 bytes is read back whole, and the reader stops exactly at the end of its frame |
| Framing.OversizedFrameTruncated | app/src/main/java/com/okanatas/nfccardemulator/NetworkService.java:85 | A payload of 256 bytes or more does not come back: the one-byte length keeps only the low 8 bits |
| Framing.ConcatRoundTrip | app/src/main/java/com/okanatas/nfccardemulator/NetworkService.java:85-86 | Messages of at most 255 bytes sent in a row on one stream are read back in order and unmodified |
| Network.NetworkService.Connect | app/src/main/java/com/okanatas/nfccardemulator/NetworkService.java:15-33 | When running, connect does nothing and returns true. Otherwise it starts one connect worker and returns the current flag |
| Network.NetworkService.Disconnect | app/src/main/java/com/okanatas/nfccardemulator/NetworkService.java:35-53 | When not running, disconnect does nothing and returns true. Otherwise it starts one disconnect worker |
| Network.NetworkService.OpenerFinished | app/src/main/java/com/okanatas/nfccardemulator/NetworkService.java:19-25 | A finished connect worker installs its socket and sets the running flag. When creating the socket failed, it changes nothing |
| Network.NetworkService.CloserFinished | app/src/main/java/com/okanatas/nfccardemulator/NetworkService.java:39-45 | A finished disconnect worker clears the running flag only if closing succeeded |
| Network.NetworkService.SendCommand | app/src/main/java/com/okanatas/nfccardemulator/NetworkService.java:79-93 | When not running, it returns false and writes nothing. On an I/O failure it returns false. Otherwise it appends the length byte (length mod 256), then the payload, and returns true |
| Network.NetworkService.ReadInto | app/src/main/java/com/okanatas/nfccardemulator/NetworkService.java:117 | One read call copies between 1 and n waiting bytes into the buffer at the offset. It consumes exactly those bytes and leaves the rest of the buffer as it was |
| Network.NetworkService.WaitForResponse | app/src/main/java/com/okanatas/nfccardemulator/NetworkService.java:101-125 | When not running, or on an I/O failure, it returns null and consumes nothing. Otherwise it returns a new array exactly as long as the length byte, holding the next payload in stream order, and consumes exactly 1 + len bytes |
| Session.LastMarker | app/src/main/java/com/okanatas/nfccardemulator/HostCardEmulatorService.java:82-85 | None exactly when the log holds no marker. Otherwise the result is a marker that occurs in the log with no marker after it |
| Session.EndFollowsClosedStart | app/src/main/java/com/okanatas/nfccardemulator/HostCardEmulatorService.java:67-69 | A start marker that is not the last marker in the log is followed by an end marker |
| Session.LastMarkerPastLines | app/src/main/java/com/okanatas/nfccardemulator/HostCardEmulatorService.java:87-89 | The command and response lines of an exchange do not change the last session marker |
| Session.ExchangeKeepsSession | app/src/main/java/com/okanatas/nfccardemulator/HostCardEmulatorService.java:79-94 | An exchange keeps the session discipline: between two start markers there is an end marker. The flag is false exactly while a session is open |
| Session.DeactivationKeepsSession | app/src/main/java/com/okanatas/nfccardemulator/HostCardEmulatorService.java:67-71 | Deactivation closes the session and sets the flag, so the next exchange writes the start marker again |
| CardEmulator.HostCardEmulatorService.constructor | app/src/main/java/com/okanatas/nfccardemulator/HostCardEmulatorService.java:19 | `isNewCommunication` starts true, with no pending workers and empty logs |
| CardEmulator.HostCardEmulatorService.HandleCommunicationMessage | app/src/main/java/com/okanatas/nfccardemulator/HostCardEmulatorService.java:79-94 | Writes the start marker only while the flag is true, then clears the flag. It logs the command and the response, and appends exactly two history entries, command then response |
| CardEmulator.HostCardEmulatorService.ProcessCommandApdu | app/src/main/java/com/okanatas/nfccardemulator/HostCardEmulatorService.java:30-57 | A null, short or odd-length command gets "command aborted" synchronously and is logged (the null one under the placeholder); only framing failures set the label. A valid command returns null, adds exactly one worker for the current mode and logs nothing |
| CardEmulator.HostCardEmulatorService.Complete | app/src/main/java/com/okanatas/nfccardemulator/HostCardEmulatorService.java:40-44 | Running a worker removes it and sends its response exactly once. It logs the exchange. A local worker's response and label change are the ones `Resolve` gives, and it leaves the relay streams alone. A network worker keeps the label, writes the command's frame when live, and consumes exactly the next frame |
| CardEmulator.HostCardEmulatorService.OnDeactivated | app/src/main/java/com/okanatas/nfccardemulator/HostCardEmulatorService.java:67-71 | For any reason value, it logs the end of the communication and sets the flag back to true |
| CardEmulator.FirstSelectExchange | app/src/main/java/com/okanatas/nfccardemulator/HostCardEmulatorService.java:30-94 | A SELECT command on a one-entry table leaves no pending worker once its worker has run. It delivers 9000 once and logs the start marker, the command and the answer |

## Left out

- Threads: `new Thread(...).start()` in the connect, disconnect and command paths is
  not modelled as concurrency. Each started worker is a pending value: `pending` in the
  service, `openers` and `closers` in the relay client. A separate method runs it to
  completion, one at a time and in any order. Races inside a worker are not modelled,
  such as a worker that finishes before `connect` reads the flag.
- Sockets: creating and closing a real socket, and `finalize`, are not modelled.
  - An opened socket is an in-memory `Link`. It holds the bytes the peer sends, the
    largest chunk one read returns, and whether its streams throw.
  - Host and port are irrelevant to the model.
- Network.NetworkService.SendCommand and Network.NetworkService.WaitForResponse: an I/O
  failure is modelled only as a socket whose streams throw on every call. A failure
  that starts between two stream calls of one operation is not modelled, for example a
  length byte written with its payload lost.
- Network.NetworkService.WaitForResponse: it requires a whole frame to be waiting when
  the service is live. If the stream has ended, the source does something else:
  - `read()` returns -1, and the -1 reaches `new byte[len]` outside the `try`.
  - A -1 from the bulk read would decrease the count.

  Neither case is claimed to give null.
- Android framework and UI: `HostApduService`, `Bundle`, `Log.*`, `MainScreenFragment`
  and string-resource lookup are not modelled.
  - `sendResponseApdu` is the `sent` sequence.
  - The debug log and the communication history are sequences of opaque entries.
- Conversions and tables:
  - `Utils.toHexString` and `Utils.hexStringToByteArray` are uninterpreted.
  - The constants of `ISOProtocol` and the loading of `FileHandler` are parameters.
  - Table entries must have at least 4 hex digits, because `substring(2, 4)` would
    throw otherwise. The two lists must be equally long.
- CardEmulator.HostCardEmulatorService.Complete: when the relay answers null (`Absent`), the
  model still logs the exchange and appends both history entries. The continuation passes
  the answer to `Utils.toHexString` without a null check (HostCardEmulatorService.java:43),
  and `Utils` is not part of this model. Whether that call returns or throws is unknown,
  so the model assumes it returns a placeholder.
- `isUsingNetwork()`, `isNetworkServiceRunning()` and `getSelectedInsDescription()` are
  plain field reads. They are the fields `isUsingNetwork`, `running` and
  `selectedInsDescription`.

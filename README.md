# TTY session-log decoder

A Dafny model of the session decoder of a TTY session viewer (`process_tty_session`
in `app.py`). The decoder takes one recorded terminal session as a byte buffer and
a settings map, frames the buffer into records and returns, in stream order, the
output events a viewer replays.

Each record is a 24-byte little-endian header `op` (signed 32-bit), `tty`
(unsigned), `length` (signed), `direction` (signed), `sec`, `usec` (unsigned),
followed by `length` payload bytes. The operation codes are OPEN=1, CLOSE=2,
WRITE=3, EXEC=4. The direction codes are INPUT=1, OUTPUT=2, INTERACT=3.
The decoder keeps two integers:

- `currtty`, the session's terminal, fixed by the first record with a non-zero `tty`;
- `prefdir`, the preferred direction, fixed by the first WRITE whose tty equals
  `currtty` (as updated for that record) and that yields a non-zero preference.
  Under `input_only` it is inverted: OUTPUT if that write was INPUT, INPUT
  otherwise. Without `input_only` a WRITE whose direction is 0 leaves it 0, and
  the next such WRITE tries again.

A WRITE whose tty equals `currtty` is emitted when its direction is OUTPUT and it
either matches `prefdir` or `both_dirs` is set. Decoding ends when a full header
can no longer be read, or at a CLOSE whose tty equals `currtty`.

Layout:

- `wire.dfy` (`Wire`): 32-bit words, their little-endian bytes, and `Read`, the
  clamped read of an in-memory stream (`read(n)` returns what is left when fewer
  than `n` bytes remain, and everything left when `n` is negative).
- `frame.dfy` (`Frame`): the opcode and direction constants, the header layout,
  `ReadRecord` and `Frames` (the record sequence of a buffer), an encoder, and
  the round trips between them.
- `session.dfy` (`Session`): settings, events, the per-record `Step`, the
  specification `Decode(buf, s) == Process(Frames(buf), Initial, s)`, and
  `ProcessTtySession`, the decoder loop written step by step as in the source and
  proved equal to `Decode`.
- `properties.dfy` (`SessionProperties`): what the decoder emits, stated over
  whole record streams against `OutputWrites`. That reference filter lists the
  OUTPUT writes on the session's terminal up to its CLOSE and ignores the
  preference.
- `scenarios.dfy` (`SessionScenarios`): small logs built with the encoder and
  their decoded events.

Three behaviours of `app.py` worth stating outright, since the model follows them:

- A record whose payload is cut short by the end of the buffer is still
  processed, and emitted if it qualifies (`app.py:56` keeps the short read).
  Only the next header read fails. `ReadRecord` clamps the payload the same way.
- Until a record with a non-zero tty is read, `currtty` is 0 and tty-0 records
  count as on the session's terminal. A tty-0 WRITE can fix `prefdir` and be
  emitted, and a tty-0 CLOSE ends decoding (app.py:60-63, 84).
- OPEN and EXEC records never emit and never touch `prefdir`. The first-record
  rule at `app.py:60-61` applies to them as to any record, so an OPEN can be
  the record that fixes `currtty`. `Step` states exactly that.

## Model

| member | source | states |
|---|---|---|
| Wire.Read | app.py:54-56 | the bytes returned are the next ones in the buffer; exactly `n` of them when that many remain; otherwise, or when `n` is negative, everything up to the end |
| Wire.LeBytesDecode | app.py:53-55 | reading back the little-endian bytes of a 32-bit word gives the word |
| Wire.LeU32Encode | app.py:53-55 | every 4 bytes are the little-endian encoding of the word they read as |
| Wire.SignedRoundTrip | app.py:53-55 | the signed (`i`) and unsigned (`L`) readings of a 32-bit word are inverse bijections |
| Frame.HeaderRoundTrip | app.py:44-55 | unpacking a packed `<iLiiLL` header gives back every field, with op, length and direction signed |
| Frame.ParseHeaderInjective | app.py:44-55 | every 24-byte block is the packing of the header it unpacks to, so unpacking loses nothing |
| Frame.ParseHeader | app.py:53-55 | `tty`, `sec` and `usec` are the unsigned little-endian words at bytes 4, 16 and 20; `op`, `length` and `direction` agree with the words at bytes 0, 8 and 12 modulo 2^32 and are negative exactly when the top bit of their last byte is set |
| Frame.ReadRecord | app.py:53-58 | no record iff fewer than 24 bytes remain; otherwise the header is the first 24 bytes, the payload follows it, at least 24 bytes are consumed, exactly 24 + length when the payload fits, else the rest of the buffer |
| Frame.Frames | app.py:51-58 | every framed record takes at least 24 bytes of the buffer, and the buffer frames into no records iff it is shorter than one header |
| Frame.FramesAt | app.py:53-56 | the two reads of one loop iteration at any position produce the next record of the framing, and framing resumes where the payload read stopped |
| Frame.ReadRecordExtended | app.py:53-56 | appending bytes keeps the first record's header, and the whole record unless its payload read hit the end of the buffer |
| Frame.ReadRecordEncoded | app.py:53-56 | a record whose length field matches its payload is read back whole from its encoding, whatever follows |
| Frame.FramesEncodedRecord | app.py:51-58 | framing an encoded record followed by bytes gives that record, then the framing of those bytes |
| Frame.FramesEncodeRecords | app.py:51-58 | framing inverts encoding: encoded well-formed records come back in order, followed by the framing of any trailing bytes |
| Session.SessionTty | app.py:60-61 | the session's terminal after a record is the old one or the record's; a non-zero terminal is kept; it is 0 only while both are 0 |
| Session.FirstPreference | app.py:64-69 | without `input_only` the first write's own direction; with it always INPUT or OUTPUT, never the write's own direction, and OUTPUT exactly when that write was INPUT |
| Session.Step | app.py:60-85 | `currtty` becomes the record's tty while it is 0 and then stays. Decoding stops iff the record is a CLOSE on `currtty`. While `prefdir` is 0, a WRITE on `currtty` sets it to its first preference (with the `input_only` inversion, and possibly 0 again); once non-zero it never changes. Records on other terminals and non-WRITE records emit nothing and keep `prefdir`. At most one event is emitted, only for an OUTPUT WRITE on `currtty` carrying its payload, the `output` tag and its sec/usec. Without `both_dirs` its direction must equal `prefdir`. Conversely, an OUTPUT WRITE on `currtty` is always emitted under `both_dirs`, and otherwise whenever its direction equals the `prefdir` in force after this record, the one it may just have set |
| Session.Process | app.py:51-87 | a record stream yields at most one event per record |
| Session.Decode | app.py:44-58 | a buffer shorter than one header, the empty buffer included, yields no events |
| Session.ProcessTtySession | app.py:42-87 | the imperative decoder loop returns exactly `Decode` of its input, for every buffer and settings |
| SessionProperties.TerminalAfter | app.py:60-61 | the session's terminal after a run of records: a terminal already fixed is kept, and otherwise it is the starting value or the tty of one of those records |
| SessionProperties.TerminalAfterFirstNonZero | app.py:60-61 | from an unset terminal, the session's terminal after a run of records is 0 exactly when every record is on tty 0, and otherwise the first non-zero tty among them |
| SessionProperties.OutputWrites | app.py:60-80 | every event of the reference filter is the `output` event of an OUTPUT WRITE record of the stream whose tty is the session's terminal as it stands once that record has been read (`TerminalAfter` of the records up to it) |
| SessionProperties.EmittedAreOutputWrites | app.py:63-85 | the emitted events are a subsequence of the reference filter: they come from OUTPUT writes on the session's terminal before its CLOSE, in stream order |
| SessionProperties.DecodedEventsAreOutputWrites | app.py:60-80 | every decoded event carries the `output` tag and is the payload and sec/usec of an OUTPUT WRITE record of the buffer on the session's terminal as it stands at that record, and the events keep the stream order of the reference filter |
| SessionProperties.BothDirsEmitsEveryOutputWrite | app.py:71-80 | with `both_dirs` the preference plays no part: the decoder emits exactly the OUTPUT writes on the session's terminal up to its CLOSE |
| SessionProperties.SettledPreferenceFilters | app.py:64-80 | without `both_dirs`, once `prefdir` is set the decoder emits exactly the OUTPUT writes on the session's terminal if `prefdir` is OUTPUT, and nothing otherwise (so `prefdir == INPUT` yields no events) |
| SessionProperties.SettledStateKept | app.py:60-69 | once non-zero, `prefdir` and `currtty` keep their values for the rest of the decode |
| SessionProperties.ForeignRecordIgnored | app.py:60-85 | once `currtty` is set, a record on another terminal can be dropped without changing the events or the state the decode ends in |
| SessionProperties.CloseIgnoresTrailingRecords | app.py:84-85 | when decoding from any state stops at a CLOSE, bytes appended to the buffer do not change the events |
| SessionProperties.CloseEndsDecoding | app.py:84-85 | when decoding a log stops at a CLOSE on the session's terminal, appending any bytes leaves the decoded events unchanged |
| SessionScenarios.DecodeEncoded | app.py:42-87 | decoding the encoding of well-formed records is processing those records from the initial state |
| SessionScenarios.HelloWrite | app.py:63-80 | one OUTPUT write of "hello" at 100 s, 500000 us on any terminal yields exactly that event. The exception is `input_only` without `both_dirs`, where the inversion makes INPUT the preference and nothing is emitted |
| SessionScenarios.InputWriteThenClose | app.py:63-85 | an INPUT write followed by a CLOSE on the same terminal yields no events under every setting, `both_dirs` included |
| SessionScenarios.InputOnlyInversion | app.py:64-80 | under `input_only` without `both_dirs`, a first INPUT write makes OUTPUT the preference: a following OUTPUT write is emitted, a following INPUT write is not |
| SessionScenarios.TtyZeroWriteFixesPreference | app.py:60-71 | with neither flag, an OUTPUT write on tty 0 followed by an INPUT write on a non-zero tty: the tty-0 write is emitted and fixes OUTPUT as the preference, the second write fixes the terminal and is filtered out |

## Left out

- Text decoding: the source turns each emitted payload into text with UTF-8 and
  replacement of invalid bytes (app.py:73). The model keeps the payload bytes in
  `Event.data`. The codec is library code, and it is total, so it never changes
  which events appear or their order.
- The `except Exception` around that decoding and its log call (app.py:81-82):
  nothing inside it can fail, so it never fires.
- Timestamps: the source emits `sec + usec / 1000000` as a float (app.py:79). The
  model keeps the integer pair (`Event.sec`, `Event.usec`).
- Settings: Python reads `input_only` and `both_dirs` by truthiness; the model
  takes them as total booleans. The source looks the keys up lazily. A settings
  map missing `input_only` raises `KeyError` at the first WRITE on the session's
  terminal while `prefdir` is 0 (app.py:66). One missing `both_dirs` raises at
  the first such WRITE whose direction differs from `prefdir` (app.py:71). The
  exception escapes the function (only `struct.error` is caught, app.py:57), so
  no events are returned. A log that never reaches a lookup decodes normally
  whatever the map holds. The model does not capture these failures. `tail`,
  `maxdelay` and `colorify` are carried in `Settings` and never read, as in the
  source.
- The unused locals `prevtime` and `current_line` (app.py:45, 47).
- The web routes, templates, object-storage client, environment loading, logging
  and server entry point (app.py:1-30, 40, 89-167): I/O and presentation around
  the decoder, which hands it a byte buffer and returns its list.
- Determinism (the same buffer and settings give the same events) holds because
  `Decode` is a function; there is no separate lemma for it.

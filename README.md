# TCP-to-UDP stream relay: a Dafny model of its core

The relay reads a byte stream from a TCP connection and sends it on as UDP
datagrams. It is meant to reconnect after failures and to wait a backoff delay between
attempts. As written, both of its failure handlers fail themselves (see "## Left out"),
so it never reconnects.
This project models two parts of it:

- `helpers.dfy` (module `Helpers`) covers the time helpers of `src/helpers.py`.
  `ms_to_readable_string` splits a millisecond count with `divmod` into days,
  hours, minutes, seconds and milliseconds. It renders only the non-zero units,
  joined by `", "`. `secs_to_readable_string` reuses it. `backoff_delay` picks
  a delay tier from the outage length and clamps it to `[BACKOFF_DELAY_MIN_MS,
  BACKOFF_DELAY_MAX_MS]`.
- `app.dfy` (module `App`) covers the `TCPToUDPForwarder` class of
  `src/app.py`. It has the `reconnect_attempts` counter, the `delimiters` list and
  the read loop of one connection. In that loop each received chunk and
  each read timeout updates the data buffer and sends datagrams. The
  sockets become a sequence of reads (`Read`) and a recorded list of sent datagrams.
- `strings.dfy` (module `Strings`) holds Python's `str()` of a non-negative
  integer and `str.join`, with the inverses used to read a rendering back.

The model follows the code as written where it differs from the intended
design:

- The backoff tiers are tested from the shortest outage up. So the delay is 200 ms
  below 5 s of outage and 1000 ms from then on. The 5 s and 30 s tiers are
  never reached.
- The seconds are rendered with the word "minutes".
- With no delimiter registered, every chunk sends the whole accumulated buffer and
  does not clear it. Only a read timeout clears it.

For each of these three, the intended behaviour is also modelled beside the
as-written one, and listed under "Findings". The rest of the model keeps the
behaviour as written. `add_delimiter` also differs from its evident intent: it stores
the `bytes` type object, not its argument. It is modelled only as written, since no
caller registers a delimiter and the delimiter branch of the read loop is left out.

`divmod` with a positive divisor floors. For such divisors Dafny's `/` and `%`
compute the same values, negative dividends included, so `Decompose` is exact for every integer.

## Model

| member | source | states |
|---|---|---|
| `Helpers.Decompose` | src/helpers.py:4-7 | hours < 24, minutes < 60, seconds < 60, ms < 1000, and days·86400000 + hours·3600000 + minutes·60000 + seconds·1000 + ms equals the input |
| `Helpers.DecomposeDays` | src/helpers.py:4-7 | the days are the floored quotient of the input by one day, and the rest is the remainder |
| `Helpers.Present` | src/helpers.py:11-28 | a unit is shown exactly when its component is positive, and the shown units come in the fixed order days, hours, minutes, seconds, ms |
| `Helpers.MsToReadable` | src/helpers.py:3-31 | the rendering is empty exactly when the input is a non-positive whole number of days (so 0 gives "") |
| `Helpers.MsToReadableItems` | src/helpers.py:9-31 | reading the rendering back gives exactly the positive units of the split, in order, each with its count and its word as written |
| `Helpers.ParseRender` | src/helpers.py:31 | a `", "`-joined list of `count word` parts reads back as exactly that list when no word contains a comma |
| `Strings.Decimal` | src/helpers.py:12-28 | the f-string rendering of a count is a non-empty run of decimal digits with no leading zero |
| `Strings.ParseDecimalOfDecimal` | src/helpers.py:12-28 | the decimal rendering of a count reads back as that count |
| `Strings.Join` | src/helpers.py:31 | the joined string is empty exactly when there are no parts, or a single empty part |
| `Helpers.SecsToReadableWholeSeconds` | src/helpers.py:33-34 | `SecsToReadable(s)` is the millisecond rendering of s·1000; it never shows milliseconds, and it is empty exactly when s is a non-positive whole number of days |
| `Helpers.MsToReadableAmbiguous` | src/helpers.py:20-21 | 5000 ms renders as "5 minutes", the same text as 300000 ms, and that text reads back as 300000 ms |
| `Helpers.MsToReadableIntendedRoundTrip` | src/helpers.py:20-25 | with the seconds labelled "seconds", reading the rendering back gives the original non-negative count |
| `Helpers.MsToReadableIntendedInjective` | src/helpers.py:20-25 | with the seconds labelled "seconds", different non-negative counts render differently |
| `Helpers.BackoffDelay` | src/helpers.py:44-59 | the delay lies in [200, 300000] ms; it is 200 ms below 5 s of outage and 1000 ms from 5 s on |
| `Helpers.BackoffDelayMonotone` | src/helpers.py:47-59 | a longer outage never gets a shorter delay |
| `Helpers.BackoffDelayIgnoresAttempts` | src/helpers.py:47-59 | the delay does not depend on the attempt count |
| `Helpers.BackoffDelaySkipsTiers` | src/helpers.py:52-57 | the delay is never 5 s or 30 s; at 2 minutes of outage it is 1 s where the tiered delay is 5 s |
| `Helpers.TieredBackoffDelay` | src/helpers.py:52-59 | with the tiers tested from the longest outage down, the delay still lies in [200, 300000] ms |
| `Helpers.TieredBackoffDelayMonotone` | src/helpers.py:52-59 | the tiered delay is monotone non-decreasing in the outage length |
| `Helpers.TieredBackoffDelayTiers` | src/helpers.py:52-59 | the tiered delay is 200 ms, 1 s, 5 s and 30 s from 0, 5 s, 2 min and 20 min of outage |
| `App.ConnectionLost` | src/app.py:37-42 | the counter update of a lost connection adds one in both branches (0 becomes 1, k becomes k + 1) |
| `App.OutageCount` | src/app.py:34-42 | after `set_connected` and n lost connections the counter is n |
| `App.TcpToUdpForwarder.constructor` | src/app.py:16-29 | the endpoints are stored, the counter is 0 and the delimiter list is empty |
| `App.TcpToUdpForwarder.AddDelimiter` | src/app.py:31-32 | the delimiter list grows by exactly one entry, the `bytes` type, and earlier entries are unchanged |
| `App.TcpToUdpForwarder.SetConnected` | src/app.py:34-35 | the counter becomes 0 and nothing else changes |
| `App.TcpToUdpForwarder.SetConnectionLost` | src/app.py:37-42 | the counter becomes 1 from 0 and k + 1 from k, so it is at least 1, and nothing else changes |
| `App.TcpToUdpForwarder.RunConnection` | src/app.py:52-79 | a new connection resets the counter to 0 and starts with an empty buffer; the buffer, the datagrams sent and whether the loop ended are those of `Replay` over the reads |
| `App.Step` | src/app.py:56-79 | one read never changes earlier datagrams and sends at most one; with sends taken as infallible, the loop goes on exactly while reads are non-empty chunks or timeouts; an ended loop stays ended |
| `App.ChunkSendsWholeBuffer` | src/app.py:62-69 | a non-empty chunk makes the buffer old buffer ++ chunk and sends exactly one datagram, equal to that whole buffer, without clearing it |
| `App.TimeoutFlushes` | src/app.py:71-74 | on a read timeout a non-empty buffer is sent as one datagram and emptied; an empty buffer sends nothing |
| `App.EmptyReadCloses` | src/app.py:58-60 | a zero-length read ends the loop with nothing appended or sent |
| `App.ClosedStaysClosed` | src/app.py:76-79 | once the loop has ended, later reads change nothing |
| `App.BufferSinceTimeout` | src/app.py:55-74 | while the connection lasts (sends taken as infallible), the buffer holds exactly the bytes received since the last timeout, and no datagram sent is empty |
| `App.ChunkResendsBuffer` | src/app.py:62-74 | chunks [1] and [2] and then a timeout send [1], [1, 2], [1, 2]: five bytes for the two received |
| `App.IntendedPassthrough` | src/app.py:62-74 | with the buffer cleared after each send, the datagrams carry every received byte exactly once, in order |

## Left out

- Sockets, threads and sleeping are not modelled: `socket.create_connection`, `recv`, `sendto`, `settimeout`,
  `threading.Thread` and `Event`, `start`, `stop` and `time.sleep`. Reads come in as a sequence and the
  sent datagrams are recorded as a list. The `stop_event` checks of both loops are left out, so a read loop runs until its reads
  run out or one of them ends it.
- The UDP address of `sendto` is not recorded. It is always `(udp_host, udp_port)`.
- The 1024-byte limit of `recv` is not modelled. A chunk may have any length.
- The outer retry loop of `run` (src/app.py:50-52 and 80-84) is not modelled.
  On a failed connect it calls `set_connection_lost` and `backoff_delay`, then sleeps.
  `lost_connection_at` is only declared and never assigned, so the call at
  line 82 would fail. The counter updates and the delay function are modelled on their own.
- When a read or the chunk send at src/app.py:69 fails, the handler at src/app.py:76-79 calls
  `self.lost_connection()`, which does not exist. A failure of the flush send at src/app.py:73
  happens inside the `socket.timeout` handler, so it goes instead to the outer handler at
  src/app.py:80-84. That handler increments the counter and then fails at line 82. The model
  ends the session at a failed read (`SocketError`) and does not model what follows.
- `sendto` is treated as infallible, including for datagrams over the UDP size limit of 65507 bytes.
  Since a chunk sends the whole uncleared buffer, once more than 65507 bytes have arrived
  without a read timeout the send fails: with 64 chunks of 1024 bytes (65536 bytes), the 64th
  `sendto` at src/app.py:69 fails. In the source, that ends the loop
  through the handler at src/app.py:76-79. In the model the session stays open and records the
  oversized datagram. So `App.Step`, `App.BufferSinceTimeout` and `App.RunConnection` describe
  the program only while the buffer stays under that limit.
- App.TcpToUdpForwarder.RunConnection: requires that no delimiter is registered. The delimiter
  branch (src/app.py:65-67) is not modelled. It splits on whitespace runs, because
  its local `delimiter` is always `None`. It raises an uncaught `ValueError` when the buffer holds no whitespace.
  No caller registers a delimiter.
- Helpers.BackoffDelay: takes the elapsed outage as whole milliseconds instead of
  reading the clock (`datetime.now() - time_ref`). It returns milliseconds, not float seconds, so the
  float arithmetic at src/helpers.py:49 and 60 is not modelled.
- Helpers.MsToReadable: takes an integer. The `int()` truncation of a float argument is not modelled.
- `parse_args` and `main` are not modelled. They do the command-line, environment and YAML configuration.

## Findings

| source | as written | input that shows it | evidently intended | confidence | as-written member | corrected member |
|---|---|---|---|---|---|---|
| src/helpers.py:20-21 | the seconds component is appended with the word "minutes" | 5000 ms renders as "5 minutes", the same as 300000 ms | the word "seconds", so different durations render differently | high, not executed | `Helpers.MsToReadableAmbiguous` | `Helpers.MsToReadableIntendedRoundTrip` |
| src/helpers.py:52-57 | the tiers are tested from the shortest outage up, so the 5 s test catches every longer outage | an outage of 120000 ms gets 1000 ms | 5 s from 2 minutes and 30 s from 20 minutes of outage, monotone | medium, not executed | `Helpers.BackoffDelaySkipsTiers` | `Helpers.TieredBackoffDelayTiers` |
| src/app.py:62-74 | with no delimiter, each chunk sends the whole accumulated buffer without clearing it | chunks [1], [2] and then a timeout send [1], [1, 2], [1, 2] | clear the buffer after sending it, so each received byte is sent once | medium, not executed | `App.ChunkResendsBuffer` | `App.IntendedPassthrough` |

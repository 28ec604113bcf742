# hexlog, modelled in Dafny

hexlog runs a command and sits between the caller and the command. It relays
the caller's standard input to the child and the child's standard output to
the caller. The bytes arrive unchanged when every `write` takes its whole
request. After a partial write, `hexlog_write` resends the front of the chunk
(see Findings). Along the way it hex-dumps the traffic of the logged
directions to standard error. The direction mask (`none`, `in`, `out`,
`inout`) comes from the command line and is toggled at run time by SIGUSR1
(input) and SIGUSR2 (output), delivered through a socket the signal handler
writes to.

This project models the supervisor in `hexlog.c`, one Dafny module per part:

- `HexlogBase` (base.dfy): bytes, `Option`, the mask constants `NONE`/`IN`/`OUT`, the
  descriptor and signal numbers, and the bit test `dir & bit`.
- `Cli` (cli.dfy): `direction` and the exit status `main` derives from the
  child's wait status.
- `HexDump` (hexdump.dfy): the formatter `hexdump`. `Hexdump` is the C loop as
  an imperative method over an `array`. It is proved equal to `DumpText`, a
  functional definition of the dump as lines, and the layout of those lines
  is proved separately.
- `SignalControl` (signals.dfy): `sigread` and the global mask `dir`, as a
  class `Control` whose method updates the field. `SigStep` and `MaskAfter`
  are its specification.
- `FullWrite` (fullwrite.dfy): `hexlog_write`, the write-until-done loop, as a
  method proved against the recursive definition `WriteLoop`. The loop as
  written resends the front of the buffer after a partial write (see
  Findings). `IntendedLoop` is the loop with `buf + off`, proved beside it.
- `Relay` (relay.dfy): `relay` and the `hexlog_t` record. `Endpoint` is a class
  with the 8192-byte carry buffer as an `array` and `off` as a field. Its
  `Relay` method is proved against the function `RelayStep`, and the
  alignment and conservation properties are lemmas about `RelayStep`.
- `EventLoop` (eventloop.dfy): `event_loop`, the `poll` loop over the four-slot
  `rfd` array, proved against `LoopPass`/`Run`.

Every operating-system call is an input, not a call:
- `read` and `write` answers come as scripts (sequences of answers), consumed in order;
- each `poll` result, together with what the relays and `sigread` return in
  that pass, is a `Pass`;
- the child's wait status is an `Option<WaitStatus>`.

Text written to standard error is returned as a string.

Integer widths do not matter here. Every count is bounded: the chunk holds
4096 bytes, the carry buffer 8192, and the mask is 0..3. So `nat`/`int` are
used without wrap-around.

Some behaviours of `hexlog.c` worth stating up front:
- SIGHUP sets the mask to `0` (hexlog.c:293-295). `signal_init`
  (hexlog.c:190-206) installs no handler for SIGHUP, so this branch of
  `sigread` is reached only when a SIGHUP number arrives on the channel.
- Signals other than SIGCHLD, SIGHUP, SIGUSR1 and SIGUSR2 leave the mask
  unchanged (hexlog.c:308-309).
- A short final line is padded with one blank triplet per missing column
  (hexlog.c:398-400), so a 12-byte line gets four.

## Model

| member | source | states |
|---|---|---|
| HexDump.HexDigit | hexlog.c:382 | a digit of `%X` is 0-9 or upper-case A-F, and a decimal digit exactly for values below 10 |
| HexDump.Hex2RoundTrip | hexlog.c:382 | the two `%02X` characters of a byte are upper-case hex digits that read back as the byte |
| HexDump.AsciiField | hexlog.c:383-388 | the ASCII column has one character per byte, each the byte's rendering |
| HexDump.AsciiFieldLayout | hexlog.c:383-388 | a printable byte (0x20..0x7E) appears verbatim in the ASCII column and any other byte appears as a dot, so the column never holds a NUL |
| HexDump.CStringAt | hexlog.c:392 | `%s` of the ascii buffer prints exactly the characters before its first NUL |
| HexDump.HexFieldWidth | hexlog.c:382-400 | every line's hex field is 50 characters wide, with the extra space after the eighth column and the closing space in place, whether or not the line is short |
| HexDump.HexFieldLayout | hexlog.c:382-400 | column p of the hex field holds byte p's two digits and a space, or three blanks when the line has no byte p |
| HexDump.ChunksFromCount | hexlog.c:381-404 | from offset base a dump writes ceil((size - base) / 16) lines |
| HexDump.DumpShape | hexlog.c:381-404 | a dump has ceil(size/16) lines; all but the last cover sixteen consecutive bytes, and the last 1 to 16 |
| HexDump.ChunksCover | hexlog.c:381-404 | the lines' byte ranges, concatenated in order, are exactly the dumped bytes |
| HexDump.LineTextIsLine | hexlog.c:389-402 | what the loop prints over all the bytes of a full or short line is exactly one `<hex field>\|<ascii>\|<label>` line |
| HexDump.DumpByte | hexlog.c:381-403 | one pass of the loop prints the byte's triplet and, at a column boundary or the end, the separator, padding and line end, and records the byte in the ascii buffer |
| HexDump.Hexdump | hexlog.c:377-406 | the text `hexdump` writes for `size` bytes is `DumpText`, whatever the uninitialised ascii buffer held |
| Cli.Direction | hexlog.c:408-421 | a token is accepted exactly when it is one of none/in/out/inout; the mask sets IN exactly for in and inout and OUT exactly for out and inout |
| Cli.DirectionName | hexlog.c:408-421 | every mask 0..3 has a token |
| Cli.DirectionOnto | hexlog.c:408-421 | the token of a mask parses back to that mask |
| Cli.DirectionOneToOne | hexlog.c:408-421 | an accepted token is the token of the mask it parses to, so tokens and masks are in one-to-one correspondence |
| Cli.ExitCode | hexlog.c:181-187 | the exit code is 0..255, and 128 or more only for an exit or a death by signal |
| Cli.ExitCodeDecodes | hexlog.c:181-187 | a code below 128 is the child's own exit code (0 also for a status that is neither an exit nor a signal), 128 is only an exit with 128, and above 128 is a signal (code - 128) or an exit with that code |
| Cli.ExitCodeAmbiguous | hexlog.c:181-187 | exit 137 and death by signal 9 give the same code, as do exit 0 and a status that is neither |
| Cli.MainExit | hexlog.c:173-187 | `main` exits with 111 when the event loop failed or the child cannot be reaped, else with the child's mapped status |
| SignalControl.Toggle | hexlog.c:296-307 | flipping one bit negates it and leaves the other bit alone, so a mask stays a mask |
| SignalControl.ToggleTwice | hexlog.c:296-307 | flipping a bit twice restores the mask |
| SignalControl.SigStep | hexlog.c:282-313 | `sigread` returns -1 exactly on a short read, 0 exactly for SIGCHLD and 1 for every other signal, and keeps the mask a mask |
| SignalControl.SignalEffects | hexlog.c:286-312 | SIGUSR1 flips only IN, SIGUSR2 flips only OUT, SIGHUP clears the mask, and any other signal or a short read leaves it unchanged |
| SignalControl.UserSignalTwice | hexlog.c:296-307 | the same user signal delivered twice restores the mask |
| SignalControl.UserSignalsCommute | hexlog.c:296-307 | SIGUSR1 then SIGUSR2 leaves the same mask as SIGUSR2 then SIGUSR1 |
| SignalControl.MaskAfter | hexlog.c:282-313 | a run of `sigread` calls from a mask leaves a mask |
| SignalControl.MaskAfterAppend | hexlog.c:282-313 | the mask after two runs of signals is the second run applied to the mask the first left |
| SignalControl.HangupForgets | hexlog.c:293-295 | after a SIGHUP the mask depends only on the signals that follow, starting from none |
| SignalControl.MaskParity | hexlog.c:296-307 | with no SIGHUP, IN ends flipped exactly when the number of SIGUSR1 is odd and OUT exactly when the number of SIGUSR2 is odd |
| SignalControl.Control.constructor | hexlog.c:53 | the global mask starts as the mask `direction` parsed |
| SignalControl.Control.SigRead | hexlog.c:282-313 | `sigread` returns and leaves in `dir` what `SigStep` says of the old mask |
| FullWrite.WriteLoop | hexlog.c:359-375 | the loop as written, the definition `HexlogWrite` is proved against: each `write` is handed the front of the buffer, EINTR goes back to the `off < size` test, and any other failure returns -1 |
| FullWrite.IntendedLoop | hexlog.c:364 | the loop with `write(fd, buf + off, size - off)`, the corrected half of the finding |
| FullWrite.WriteOutcome | hexlog.c:359-375 | `hexlog_write` returns 0 or -1. It returns 0 only when the accepted counts reach the size, and -1 exactly when the last answer it read was a failure, with no failure before it. The sink gets one byte per accepted byte |
| FullWrite.IntendedDelivers | hexlog.c:364 | with `buf + off`, the sink receives the accepted bytes in order, and a successful call delivers the whole buffer however `write` splits it |
| FullWrite.InterruptsRetried | hexlog.c:365-367 | EINTR is retried without effect: removing the interruptions from the answers changes neither the result nor what the sink gets |
| FullWrite.PartialWriteRepeats | hexlog.c:364 | as written, four bytes accepted two by two reach the sink as 1,2,1,2 and the call reports success |
| FullWrite.WholeRequestsDeliver | hexlog.c:359-375 | as written, the loop is right when every `write` accepts its whole request: a successful call hands the sink exactly the buffer |
| FullWrite.SameControl | hexlog.c:359-375 | the corrected loop makes the same calls, accepts the same counts, sends as many bytes and returns the same value as the loop as written |
| FullWrite.HexlogWrite | hexlog.c:359-375 | the do-while loop over the buffer returns and puts on the wire what `WriteLoop`, the loop as written, says |
| Relay.ReadRetry | hexlog.c:319-320 | the read loop settles on an answer that is not an interruption |
| Relay.ReadRetrySkips | hexlog.c:319-320 | the read loop skips exactly the leading interruptions and settles on the first other answer |
| Relay.Delivered | hexlog.c:317-319 | a read puts a prefix of at most 4096 of the offered bytes in the chunk, all of them when they fit |
| Relay.Align | hexlog.c:343-354 | carry plus chunk splits into a dumped prefix whose length is a multiple of sixteen and a kept tail of fewer than sixteen bytes |
| Relay.AlignUnique | hexlog.c:343-354 | that split is the only one with these two properties |
| Relay.RelayStep | hexlog.c:315-357 | `relay` as a function of the carry and the read and write answers, the definition `Endpoint.Relay` is proved against: read failure -1, end of file 0, failed forward -1, unlogged 1 with the carry dropped, else 1 with the aligned dump |
| Relay.CarryBound | hexlog.c:343-354 | a carry under sixteen bytes stays under sixteen after any call of `relay` |
| Relay.Conservation | hexlog.c:343-354 | on a logged direction the dumped bytes followed by the new carry are the old carry followed by the chunk. ((off+n)/16)*16 bytes are dumped and (off+n)%16 kept, and a dump happens exactly when off+n > 15 |
| Relay.Unlogged | hexlog.c:328-341 | on a direction that is not logged, a call that read a chunk and forwarded it returns 1 with what the write loop sent, dumps nothing and discards the carry |
| Relay.ForwardFirst | hexlog.c:325-341 | what `relay` forwards and returns does not depend on the mask |
| Relay.Forwards | hexlog.c:325-326 | a call that returns 1 has forwarded as many bytes as it read, and exactly the chunk when every `write` took its whole request; with the corrected `hexlog_write` the chunk goes out unaltered under any split |
| Relay.PartialRelayRepeats | hexlog.c:325-326 | as written, a 4-byte chunk written two and two reaches the peer as 1,2,1,2 and `relay` returns 1 |
| Relay.Failures | hexlog.c:319-326 | `relay` returns 0 exactly at end of file and -1 on a read error or a failed forward; in those cases the carry is kept and nothing is dumped |
| Relay.OverCopyInBounds | hexlog.c:343-349 | the first `memcpy` copies `len` chunk bytes, more than the call dumps but inside both buffers. The dumped and the kept bytes of the chunk add up to its `n` bytes |
| Relay.Memcpy | hexlog.c:346 | `memcpy` between distinct buffers copies the range and leaves the rest of the destination unchanged |
| Relay.ReadChunk | hexlog.c:319-323 | the read loop leaves in the chunk the bytes of the answer it settled on and returns their count, or -1 for an error |
| Relay.Endpoint.constructor | hexlog.c:81 | a zeroed `hexlog_t` has an empty carry |
| Relay.Endpoint.Store | hexlog.c:343-354 | the logging half of `relay` dumps `Align(carry + chunk).dumped` and keeps `Align(carry + chunk).kept` as the new carry |
| Relay.Endpoint.CopyIn | hexlog.c:344-347 | after the first `memcpy` the buffer starts with the bytes to dump |
| Relay.Endpoint.MoveRest | hexlog.c:348-349 | after the second `memcpy` the buffer starts with the bytes kept |
| Relay.Endpoint.DumpAligned | hexlog.c:343-350 | once carry and chunk reach sixteen bytes, the aligned prefix is dumped and the rest kept |
| Relay.Endpoint.Accumulate | hexlog.c:351-354 | under sixteen bytes, the chunk is appended to the carry and nothing is dumped |
| Relay.Endpoint.Relay | hexlog.c:315-357 | `relay` returns, forwards, dumps and leaves as carry what `RelayStep` says of the old carry |
| Relay.Endpoint.Flush | hexlog.c:167-171 | after the loop, `main` dumps the carry as one line when there is one and writes nothing otherwise |
| Relay.EmptyDump | hexlog.c:381 | a dump of no bytes writes nothing |
| Relay.FlushOneLine | hexlog.c:167-171 | a carry of 1 to 15 bytes dumps as a single short line |
| EventLoop.LoopPass | hexlog.c:221-279 | one pass of the `for (;;)` loop, the definition `RunPass` is proved against: poll EINTR continues, another poll error returns -1, a hang-up closes the stdin endpoint, then the stdin relay, the child relay and `sigread` in that order |
| EventLoop.Run | hexlog.c:221-279 | the passes `event_loop` makes until one returns, the definition `Loop` is proved against |
| EventLoop.PassEffects | hexlog.c:221-279 | a pass returns 0 only when the signal channel was ready and `sigread` saw SIGCHLD, and -1 only on a `poll` error, a failed `close`, or -1 from a relay or `sigread`. Otherwise it only closes slots, keeps the signal slot, keeps the two stdin-endpoint slots open or closed together, and deactivates an endpoint whose relay reached end of file |
| EventLoop.PassPolls | hexlog.c:222-236 | EINTR from `poll` changes nothing, another `poll` error returns -1, and a hang-up on the child's input closes the stdin endpoint before any relay |
| EventLoop.RunOutcome | hexlog.c:221-279 | `event_loop` returns 0 or -1, and 0 only after a pass in which `sigread` reported the child's exit |
| EventLoop.RunPass | hexlog.c:221-279 | one pass over the `rfd` array returns or leaves the slots as `LoopPass` says |
| EventLoop.Loop | hexlog.c:208-280 | `event_loop` returns what `Run` says of its initial slots and passes |

## Left out

- The process setup in `main` (hexlog.c:83-158) is left out. This covers the socket pairs, `fork`, `dup2`, `execvp`, the process restriction, `setvbuf`, the argument count check and `usage`, and the `HEXLOG_LABEL_*` environment labels. It is all operating-system wiring with no logic to prove. Labels are a parameter (`tag`).
- `restrict_process_capsicum.c` is not part of this model: it is operating-system restriction code.
- `waitfor.c` is not part of this model. Its result is the input `wait` of `MainExit`.
- `sighandler` and `signal_init` (hexlog.c:67-70, 190-206) are asynchronous signal delivery. The model begins where `sigread` reads the signal number back. The byte count and the value read are parameters of `SigRead`.
- EventLoop.LoopPass: the values `relay` and `sigread` return in a pass are inputs of that pass. The loop is not chained to the `Endpoint` and `Control` state. Their properties are proved in `Relay` and `SignalControl`.
- EventLoop.Loop: termination is modelled by a finite sequence of passes. Each method requires that its read, write or poll script settles the loop, so a `write` that keeps accepting 0 bytes, or a loop that never returns, is outside the model.
- The `close` calls of a pass collapse into one `closeOk` flag per pass. Which descriptor failed to close, and the descriptor numbers' ownership, are not modelled.
- `hexdump` returns 0; every caller discards it, so `Hexdump` returns the text written to stderr instead. `fprintf` failures and stdio buffering are not modelled.
- `err` and `errno` handling in `main` are reduced to the exit code 111.
- `direction` on a rejected token leaves `*d` untouched; the model returns `None` and `main` then calls `usage`, which is left out.

## Findings

| source | as written | input that shows it | evidently intended | confidence | as-written member | corrected member |
|---|---|---|---|---|---|---|
| hexlog.c:364 | `write(fd, buf, size - off)` passes the start of the buffer on every call, so after a partial write the next call sends the front of the buffer again | a 4-byte chunk `1,2,3,4` whose two writes accept 2 bytes each: the sink receives `1,2,1,2` and `hexlog_write` returns 0 | `write(fd, buf + off, size - off)`, so the sink receives each byte once, in order | not executed | FullWrite.PartialWriteRepeats | FullWrite.IntendedDelivers |

`FullWrite.WriteLoop` is the loop as the source writes it. `FullWrite.HexlogWrite`, `Relay.RelayStep` and `Relay.Endpoint.Relay` follow it, and `Relay.PartialRelayRepeats` shows the repeat at the level of `relay`. `FullWrite.IntendedLoop` is the loop with `buf + off`.

`FullWrite.SameControl` proves the correction changes only which bytes are sent. The return value, the accepted counts, the calls and the number of bytes are those of the code as written. So the return values of `relay` and the event loop are the same under either version. `Relay.Forwards` shows that with the correction a successful `relay` forwards its chunk unaltered.

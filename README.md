# ic706-remote framing and relay engine, in Dafny

This project models the core of `src/common.c` in ic706-remote. That program
relays the control protocol of an IC-706 panel and radio between a serial line
and a TCP peer. The modelled core has three parts.

- **`read_data`** appends one read's bytes to a transfer buffer (`struct
  xfr_buf`: a fixed-size byte array, the write index `wridx` and three
  counters). It then classifies the buffer by looking at its first byte, its
  last byte and its byte at offset 1.
- **`transfer_data`** is one read/classify/act cycle. It answers handshakes
  with canned replies on the input channel. It drops power-key packets and
  discards invalid buffers. It forwards every other packet to the output
  channel. It also updates `wridx` and the counters.
- **`send_keepalive`** and **`send_pwr_message`** build the two four-byte
  frames that the relay sends itself.

Files and modules:

- `protocol.dfy` (`Protocol`) holds the marker bytes, the packet type codes,
  the canned replies, the two originated frames and the pure classifier
  `Classify` (common.c:152-166).
- `syscalls.dfy` (`Syscalls`) holds class `Os`. Its `Write` records each
  `write(fd, buf, count)` call in a ghost log of `(fd, bytes)`. The return
  value of each write is passed in by the caller and lies between -1 and
  `count`.
- `relay.dfy` (`Relay`) holds class `XfrBuf`, the methods `ReadData`,
  `TransferData`, `SendKeepalive` and `SendPwrMessage`, and the functions
  that specify them (`ReadOutcome`, `Retained`).
- `framing.dfy` (`Framing`) holds `Feed`, which chains the cycles that
  `TransferData`'s postconditions describe. It also holds the lemmas about
  streams cut into arbitrary reads.

A read is passed in as a byte sequence no longer than the free space
`RDBUF_SIZE - wridx`. The empty sequence is a read that returned 0 bytes
(EOF). A full buffer asks for 0 bytes, so its next read is always EOF, and the
default branch then flushes the whole buffer.

The `PKT_TYPE_*` values and `RDBUF_SIZE` are defined in `common.h`, which is
not part of this model. Four type codes are wire bytes, and their values come
from the frames in common.c: keepalive `0x0B` (common.c:266), power key `0xA0`
(common.c:273), and INIT1 `0xF0` and INIT2 `0xF1` (the replies at
common.c:185-186). The four statuses (INVALID, INCOMPLETE, EOS, EOF) are given
distinct negative values, so no type byte can be mistaken for a status. A
complete frame's type is its raw byte at offset 1, exactly as at
common.c:155. `RDBUF_SIZE` is 200 here. The proofs use only that a four-byte
frame fits: the keepalive and power-frame lemmas prove that every read of
those frames is within the free space, which fails for a capacity below 4.

Behaviour of the code that the model keeps, each flagged in a comment:

- A keepalive falls through into the INIT1 case, because there is no
  `break`. It therefore sends both handshake replies and adds 2 to
  `valid_pkts` (common.c:192-204).
- INIT2 adds `write`'s raw return value to `write_errors`
  (common.c:209). A successful write adds 3 and a failed one adds -1. This
  is why `writeErrors` is an `int`.
- On EOF the default branch still writes the buffered bytes and counts a
  valid packet, even when the buffer is empty (common.c:231-241).
- `[FE, FD]` is a complete frame whose type byte is the end marker `0xFD`.

Two facts about the code that its comments do not make plain:

- A failed `read` returns -1. Because `num` is a `size_t` (common.c:133), that
  value passes `num > 0` (common.c:138), so the error branch at
  common.c:173-177 never runs. What happens instead is listed under "Left
  out".
- Splitting a stream into reads can change how a frame is classified, because
  only the buffer's first and last bytes are examined. It cannot for a frame
  that holds no `0xFD` before its last byte, fits the buffer and arrives alone
  (`FeedUnbrokenFrame`, `UnbrokenFrameFeasible`). It can when a read stops
  right after an interior `0xFD` (`SplitAtInteriorEndMarker`), or when a read
  carries bytes past the end marker, which makes the frame after it vanish
  (`ReadPastEndMarker`). A frame longer than the buffer never arrives whole:
  no split of it into reads within the free space exists
  (`LongFrameInfeasible`). The buffer fills first; the code then reads 0
  bytes into the full buffer, gets EOF (common.c:136, 168-170) and flushes
  the partial frame (common.c:231-241).

## Model

| member | source | states |
|---|---|---|
| `Protocol.Classify` | src/common.c:152-166 | A non-empty buffer yields a type byte iff it starts with 0xFE and ends with 0xFD, and that byte is `buf[1]` (so `[FE,FD]` yields 0xFD). It yields INCOMPLETE iff it starts with 0xFE and does not end with 0xFD, so a lone `[FE]` is incomplete. It yields EOS iff it is exactly `[00]`. It yields INVALID iff its first byte is not 0xFE and it is not `[00]`. It never yields EOF. |
| `Protocol.KeepaliveFrame` | src/common.c:264-269 | The keepalive frame is four bytes: start marker, type 0x0B, payload 0x00, end marker. It has no end marker before its last byte. |
| `Protocol.PwrFrame` | src/common.c:271-276 | The power frame is four bytes with type 0xA0 and no end marker before its last byte. Its payload is 0x01 iff `poweron` is non-zero and 0x00 iff it is zero. |
| `Relay.ReadOutcome` | src/common.c:136-171 | `read_data` returns EOF iff the read returned no bytes. Otherwise it returns the classification of the old buffer followed by the new bytes. |
| `Relay.Retained` | src/common.c:190-241 | After a cycle, the buffer is non-empty iff the outcome was INCOMPLETE, and then it holds the old bytes followed by the new ones. Every other outcome leaves it empty. |
| `Relay.ReadData` | src/common.c:129-181 | Reads at most the free space. Advances `wridx` by exactly the count read, so `wridx <= RDBUF_SIZE` is kept. Appends the bytes after the old contents and leaves the rest of the array alone. Returns `ReadOutcome`. A full buffer always reads EOF. |
| `Relay.TransferData` | src/common.c:183-244 | Returns `read_data`'s result and leaves `Retained` buffered. INCOMPLETE changes no counter and writes nothing. INVALID adds 1 to `invalid_pkts` and writes nothing. KEEPALIVE and INIT1 write the INIT1 reply and then the INIT2 reply to `ifd`, and add 1 to `write_errors` for each write that did not return 3. KEEPALIVE adds 2 to `valid_pkts` and INIT1 adds 1. INIT2 writes the INIT2 reply to `ifd`, adds the raw write result to `write_errors` and adds 1 to `valid_pkts`. PWK adds 1 to `valid_pkts` and writes nothing. Every other code (EOS, EOF, other type bytes) writes the whole buffer to `ofd`, adds 1 to `write_errors` iff the write did not return its length, and adds 1 to `valid_pkts`. |
| `Relay.SendInitReplies` | src/common.c:200-201 | Writes the INIT1 reply and then the INIT2 reply to the input descriptor, and reports one failure for each write that did not return 3. |
| `Relay.SendKeepalive` | src/common.c:264-269 | Writes exactly the keepalive frame to `fd`. Returns 0 iff the write returned 4, and 1 otherwise. |
| `Relay.SendPwrMessage` | src/common.c:271-281 | Writes exactly `PwrFrame(poweron)` to `fd`, with the payload byte patched to 0x01 when `poweron` is non-zero. |
| `Framing.Feed` | src/common.c:189-243 | The codes returned by successive `transfer_data` cycles on one buffer, one code per read. Whether every read fits the free space when it is issued (what `TransferData` requires) is the separate predicate `Feasible`. |
| `Framing.FeedEof` | src/common.c:136-171 | In any series of cycles, the code for a read is EOF iff that read returned no bytes, whatever was buffered before it. |
| `Framing.FeedAppend` | src/common.c:189-243 | Feeding a series of reads equals feeding its first part and then feeding the rest from what the first part left buffered. |
| `Framing.FeedUnbrokenFrame` | src/common.c:152-157 | Take a frame with no end marker before its last byte, any prefix of it already buffered, and the rest arriving in any non-empty reads. Every cycle but the last returns INCOMPLETE, and the last returns the frame's type byte. |
| `Framing.FitsFeasible` | src/common.c:136-140 | When the buffered bytes and all the reads together fit `RDBUF_SIZE`, every read, however the bytes are split, asks for no more than the free space left when it is issued. |
| `Framing.LongFrameInfeasible` | src/common.c:136-157 | A frame with no end marker before its last byte and longer than `RDBUF_SIZE` cannot arrive through reads within the free space: some read would have to ask for more than is free. |
| `Framing.UnbrokenFrameFeasible` | src/common.c:136-157 | The reads of such a frame are all within the free space exactly when the whole frame fits the buffer. |
| `Framing.FeasibleAppend` | src/common.c:136-140 | A series of reads is within the free space exactly when its first part is, and the rest is from what the first part left buffered. |
| `Framing.KeepaliveAnySplit` | src/common.c:264-269 | The keepalive frame, split any way into reads into an empty buffer, classifies INCOMPLETE until its last byte arrives and then as KEEPALIVE. Every one of those reads fits the free space. |
| `Framing.PwrAnySplit` | src/common.c:271-276 | The power frame, split any way into reads into an empty buffer, classifies INCOMPLETE until its last byte arrives and then as PWK. Every one of those reads fits the free space. |
| `Framing.FeedGarbage` | src/common.c:226-229 | Reads into an empty buffer whose first byte is neither 0xFE nor a lone 0x00 are each discarded as INVALID, and the buffer stays empty. Repeated garbage never makes it grow, so the reads fit exactly when each fits the empty buffer. |
| `Framing.ResyncAfterGarbage` | src/common.c:152-166 | After any run of garbage reads, the next unbroken frame, split any way, is recognised by its own type byte. All those reads fit exactly when each garbage read and the frame fit the empty buffer. |
| `Framing.SplitAtInteriorEndMarker` | src/common.c:154-155 | `[FE,FD,01,FD]` in one read is one packet of type 0xFD. Read as `[FE,FD]` and then `[01,FD]`, it is a packet of type 0xFD followed by an invalid packet. |
| `Framing.ReadPastEndMarker` | src/common.c:152-155 | `[FE,0B,00,FD,FE]` and then `[A0,01,FD]` classify as INCOMPLETE and then KEEPALIVE: the keepalive's end marker is hidden by the byte after it, and the power frame read with it is never reported. |

## Left out

- `set_serial_config` and `create_server_socket` (src/common.c:37-127): termios and socket setup with no framing logic.
- `time_ms` and `time_us` (src/common.c:246-262): they read the clock and compute in floating point.
- `pwk_init`, `gpio_init_out` and `gpio_set_value` (src/common.c:283-400): they only open and write sysfs GPIO files. `gpio_init_out` always initialises pin 20 instead of its argument (src/common.c:369). That is a question for the authors and is not modelled.
- `print_buffer` and the `#if DEBUG` traces, and the stderr messages in `read_data` and `send_pwr_message`: diagnostic output only.
- A `read` that fails and returns -1. The model's reads return 0 or more bytes. In the code, -1 becomes `SIZE_MAX` in the `size_t` `num` and passes `num > 0` (src/common.c:133, 138). `wridx += num` then wraps `wridx` to one less than before (src/common.c:140), so the buffer silently drops its last byte. When `wridx` was 0, it wraps below zero, the classification reads `buf[wridx - 1]` out of bounds (src/common.c:154), and the next `read` targets `&buf[wridx]` with count `RDBUF_SIZE - wridx` (src/common.c:136). The error branch at src/common.c:173-177 never runs. This is a defect of the code; modelling it needs C's unsigned wrap-around and out-of-bounds access, which the model does not have.
- The `read` and `write` system calls: a read's bytes and each write's return value are parameters. A write is logged with its descriptor and the bytes it was handed. What reaches the peer is not modelled. The descriptor read from is not recorded.
- Integer widths: `wridx` and the counters are unbounded here. Overflow of the C counters is not modelled.
- The numeric values of the `PKT_TYPE_*` codes and `RDBUF_SIZE`: `common.h` is not part of this model. The values used are described above.
- The outer event loop that calls `transfer_data`: it is not part of common.c. `Framing.Feed` describes successive cycles as a function of the reads. It does not itself check the buffer capacity; `Framing.Feasible` states when every read fits, which each `TransferData` call requires.

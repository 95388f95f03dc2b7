/** The framing and relay engine: a transfer buffer per relayed direction,
    `read_data`, which appends one read's bytes to it and classifies the
    result, `transfer_data`, which acts on that classification, and the two
    frames the relay originates itself. */
module Relay {
  import opened Protocol
  import opened Syscalls

  /** `struct xfr_buf`: the bytes of the frame in flight and the running
      counters of one direction. */
  class XfrBuf {
    var data: array<byte>
    /** Next free offset in `data`. */
    var wridx: nat
    var validPkts: nat
    var invalidPkts: nat
    /** Not a nat: INIT2 handling adds the raw result of `write`, which may
        be -1. */
    var writeErrors: int

    ghost predicate Valid()
      reads this
    {
      data.Length == RDBUF_SIZE && wridx <= data.Length
    }

    /** The bytes buffered so far. */
    ghost function Contents(): seq<byte>
      reads this, data
      requires Valid()
    {
      data[..wridx]
    }

    /** A zeroed buffer, as the caller sets one up. */
    constructor ()
      ensures Valid() && fresh(data)
      ensures wridx == 0 && validPkts == 0 && invalidPkts == 0 && writeErrors == 0
    {
      data := new byte[RDBUF_SIZE];
      wridx, validPkts, invalidPkts, writeErrors := 0, 0, 0, 0;
    }
  }

  /** What `read_data` returns when `chunk` is read into a buffer holding
      `before`. An empty chunk is a read that returned 0. */
  function ReadOutcome(before: seq<byte>, chunk: seq<byte>): (t: int)
    ensures t == PKT_TYPE_EOF <==> chunk == []
  {
    if chunk == [] then PKT_TYPE_EOF else Classify(before + chunk)
  }

  /** What `transfer_data` leaves buffered: everything, when the frame is
      still incomplete, and nothing for every other outcome. */
  function Retained(before: seq<byte>, chunk: seq<byte>): (r: seq<byte>)
    ensures r != [] <==> ReadOutcome(before, chunk) == PKT_TYPE_INCOMPLETE
    ensures r != [] ==> r == before + chunk
  {
    if ReadOutcome(before, chunk) == PKT_TYPE_INCOMPLETE then before + chunk else []
  }

  /** `t` is passed to the default branch of the dispatch switch, which
      forwards the buffer: an ordinary type byte, EOS or EOF. */
  predicate IsForwarded(t: int) {
    t != PKT_TYPE_KEEPALIVE && t != PKT_TYPE_INIT1 && t != PKT_TYPE_INIT2 &&
    t != PKT_TYPE_PWK && t != PKT_TYPE_INCOMPLETE && t != PKT_TYPE_INVALID
  }

  /** The byte count of the first write `transfer_data` issues for outcome
      `t` when `n` bytes are buffered: a canned reply or the whole buffer. */
  function FirstWriteLength(t: int, n: nat): nat {
    if t == PKT_TYPE_KEEPALIVE || t == PKT_TYPE_INIT1 || t == PKT_TYPE_INIT2 then 3 else n
  }

  /** C's `result != expected`, which is 1 or 0 when added to a counter. */
  function Mismatch(result: int, expected: int): int {
    if result != expected then 1 else 0
  }

  /** `read_data`: reads `chunk` (at most the free space of the buffer) into
      `data` at `wridx`, advances `wridx` by its length and classifies the
      buffer. A full buffer asks for 0 bytes, so it can only read EOF. */
  method ReadData(buffer: XfrBuf, chunk: seq<byte>) returns (pktType: int)
    requires buffer.Valid()
    requires |chunk| <= RDBUF_SIZE - buffer.wridx
    modifies buffer`wridx, buffer.data
    ensures buffer.Valid()
    ensures buffer.wridx == old(buffer.wridx) + |chunk|
    ensures buffer.Contents() == old(buffer.Contents()) + chunk
    ensures buffer.data[buffer.wridx..] == old(buffer.data[..])[buffer.wridx..]
    ensures pktType == ReadOutcome(old(buffer.Contents()), chunk)
    ensures old(buffer.wridx) == RDBUF_SIZE ==> pktType == PKT_TYPE_EOF
  {
    var w := buffer.wridx;
    var i := 0;
    while i < |chunk|
      invariant 0 <= i <= |chunk|
      invariant buffer.wridx == w
      invariant forall j :: 0 <= j < w ==> buffer.data[j] == old(buffer.data[j])
      invariant forall j :: 0 <= j < i ==> buffer.data[w + j] == chunk[j]
      invariant forall j :: w + i <= j < buffer.data.Length ==> buffer.data[j] == old(buffer.data[j])
    {
      buffer.data[w + i] := chunk[i];
      i := i + 1;
    }
    ghost var filled := old(buffer.Contents()) + chunk;
    assert buffer.data[..w + |chunk|] == filled;

    var num := |chunk|;
    if num > 0 {
      buffer.wridx := buffer.wridx + num;
      if buffer.data[0] == START {
        if buffer.data[buffer.wridx - 1] == END {
          pktType := buffer.data[1] as int;
        } else {
          pktType := PKT_TYPE_INCOMPLETE;
        }
      } else if buffer.data[0] == EOS_BYTE && buffer.wridx == 1 {
        pktType := PKT_TYPE_EOS;
      } else {
        pktType := PKT_TYPE_INVALID;
      }
    } else {
      pktType := PKT_TYPE_EOF;
    }
  }

  /** `transfer_data`: one read/classify/act cycle on the buffer of the
      direction from `ifd` to `ofd`. `w1` and `w2` are what the first and
      the second `write` of the cycle return. */
  method TransferData(ifd: int, ofd: int, buffer: XfrBuf, os: Os, chunk: seq<byte>, w1: int, w2: int)
    returns (pktType: int)
    requires buffer.Valid()
    requires |chunk| <= RDBUF_SIZE - buffer.wridx
    requires -1 <= w1 <= FirstWriteLength(ReadOutcome(buffer.Contents(), chunk), buffer.wridx + |chunk|)
    requires -1 <= w2 <= |INIT2_RESP|
    modifies buffer, buffer.data, os
    ensures buffer.Valid() && buffer.data == old(buffer.data)
    // the code returned is the classification of the read
    ensures pktType == ReadOutcome(old(buffer.Contents()), chunk)
    // only an incomplete frame stays buffered
    ensures buffer.Contents() == Retained(old(buffer.Contents()), chunk)
    ensures buffer.data[..old(buffer.wridx) + |chunk|] == old(buffer.Contents()) + chunk
    // incomplete: nothing besides the read happens
    ensures pktType == PKT_TYPE_INCOMPLETE ==>
      buffer.validPkts == old(buffer.validPkts) && buffer.invalidPkts == old(buffer.invalidPkts) &&
      buffer.writeErrors == old(buffer.writeErrors) && os.log == old(os.log)
    // invalid: counted and discarded
    ensures pktType == PKT_TYPE_INVALID ==>
      buffer.validPkts == old(buffer.validPkts) && buffer.invalidPkts == old(buffer.invalidPkts) + 1 &&
      buffer.writeErrors == old(buffer.writeErrors) && os.log == old(os.log)
    // keepalive: both handshake replies back on ifd, and counted twice
    ensures pktType == PKT_TYPE_KEEPALIVE ==>
      buffer.validPkts == old(buffer.validPkts) + 2 && buffer.invalidPkts == old(buffer.invalidPkts) &&
      buffer.writeErrors == old(buffer.writeErrors) + Mismatch(w1, 3) + Mismatch(w2, 3) &&
      os.log == old(os.log) + [WriteCall(ifd, INIT1_RESP), WriteCall(ifd, INIT2_RESP)]
    // INIT1: both handshake replies back on ifd
    ensures pktType == PKT_TYPE_INIT1 ==>
      buffer.validPkts == old(buffer.validPkts) + 1 && buffer.invalidPkts == old(buffer.invalidPkts) &&
      buffer.writeErrors == old(buffer.writeErrors) + Mismatch(w1, 3) + Mismatch(w2, 3) &&
      os.log == old(os.log) + [WriteCall(ifd, INIT1_RESP), WriteCall(ifd, INIT2_RESP)]
    // INIT2: the INIT2 reply back on ifd; write's raw result is added
    ensures pktType == PKT_TYPE_INIT2 ==>
      buffer.validPkts == old(buffer.validPkts) + 1 && buffer.invalidPkts == old(buffer.invalidPkts) &&
      buffer.writeErrors == old(buffer.writeErrors) + w1 &&
      os.log == old(os.log) + [WriteCall(ifd, INIT2_RESP)]
    // power key: counted and dropped
    ensures pktType == PKT_TYPE_PWK ==>
      buffer.validPkts == old(buffer.validPkts) + 1 && buffer.invalidPkts == old(buffer.invalidPkts) &&
      buffer.writeErrors == old(buffer.writeErrors) && os.log == old(os.log)
    // every other type byte, EOS and EOF: the whole buffer goes to ofd
    ensures IsForwarded(pktType) ==>
      buffer.validPkts == old(buffer.validPkts) + 1 && buffer.invalidPkts == old(buffer.invalidPkts) &&
      buffer.writeErrors == old(buffer.writeErrors) + Mismatch(w1, old(buffer.wridx) + |chunk|) &&
      os.log == old(os.log) + [WriteCall(ofd, old(buffer.Contents()) + chunk)]
  {
    ghost var frame := old(buffer.Contents()) + chunk;
    pktType := ReadData(buffer, chunk);
    assert buffer.data[..buffer.wridx] == frame;

    if pktType == PKT_TYPE_KEEPALIVE || pktType == PKT_TYPE_INIT1 {
      if pktType == PKT_TYPE_KEEPALIVE {
        // Keepalives are emulated locally. The source has no `break` after
        // this case, so control falls into the INIT1 case and `valid_pkts`
        // is incremented a second time there.
        buffer.wridx := 0;
        buffer.validPkts := buffer.validPkts + 1;
      }
      var failed := SendInitReplies(ifd, os, w1, w2);
      buffer.writeErrors := buffer.writeErrors + failed;
      buffer.wridx := 0;
      buffer.validPkts := buffer.validPkts + 1;
    } else if pktType == PKT_TYPE_INIT2 {
      var init2Resp := new byte[][0xFE, 0xF1, 0xFD];
      assert init2Resp[..3] == INIT2_RESP;
      var n := os.Write(ifd, init2Resp, 3, w1);
      // Unlike the INIT1 case, the raw count is added, not `!= 3`: a
      // successful write adds 3 and a failed one adds -1.
      buffer.writeErrors := buffer.writeErrors + n;
      buffer.wridx := 0;
      buffer.validPkts := buffer.validPkts + 1;
    } else if pktType == PKT_TYPE_PWK {
      buffer.wridx := 0;
      buffer.validPkts := buffer.validPkts + 1;
    } else if pktType == PKT_TYPE_INCOMPLETE {
    } else if pktType == PKT_TYPE_INVALID {
      buffer.invalidPkts := buffer.invalidPkts + 1;
      buffer.wridx := 0;
    } else {
      // Also on EOF, so that a partial frame still buffered is flushed.
      var n := os.Write(ofd, buffer.data, buffer.wridx, w1);
      buffer.writeErrors := buffer.writeErrors + Mismatch(n, buffer.wridx);
      buffer.wridx := 0;
      buffer.validPkts := buffer.validPkts + 1;
    }
  }

  /** The action of the INIT1 case of `transfer_data`, which the KEEPALIVE
      case falls into: the INIT1 reply and then the INIT2 reply on `ifd`.
      Returns how many of the two writes did not return 3. */
  method SendInitReplies(ifd: int, os: Os, w1: int, w2: int) returns (failed: int)
    requires -1 <= w1 <= |INIT1_RESP| && -1 <= w2 <= |INIT2_RESP|
    modifies os
    ensures os.log == old(os.log) + [WriteCall(ifd, INIT1_RESP), WriteCall(ifd, INIT2_RESP)]
    ensures failed == Mismatch(w1, 3) + Mismatch(w2, 3)
  {
    var init1Resp := new byte[][0xFE, 0xF0, 0xFD];
    var init2Resp := new byte[][0xFE, 0xF1, 0xFD];
    assert init1Resp[..3] == INIT1_RESP && init2Resp[..3] == INIT2_RESP;
    var n1 := os.Write(ifd, init1Resp, 3, w1);
    var n2 := os.Write(ifd, init2Resp, 3, w2);
    failed := Mismatch(n1, 3) + Mismatch(n2, 3);
  }

  /** `send_keepalive`: writes the keepalive frame to `fd`; returns 1 when
      the write did not take all four bytes and 0 otherwise. */
  method SendKeepalive(fd: int, os: Os, w: int) returns (failed: int)
    requires -1 <= w <= 4
    modifies os
    ensures os.log == old(os.log) + [WriteCall(fd, KeepaliveFrame())]
    ensures failed == 0 <==> w == 4
    ensures failed == 0 || failed == 1
  {
    var msg := new byte[][0xFE, 0x0B, 0x00, 0xFD];
    assert msg[..4] == KeepaliveFrame();
    var n := os.Write(fd, msg, 4, w);
    failed := Mismatch(n, 4);
  }

  /** `send_pwr_message`: writes the power frame to `fd`, patching the
      payload byte to 0x01 when `poweron` is non-zero. The write's result is
      only reported on stderr. */
  method SendPwrMessage(fd: int, poweron: int, os: Os, w: int)
    requires -1 <= w <= 4
    modifies os
    ensures os.log == old(os.log) + [WriteCall(fd, PwrFrame(poweron))]
  {
    var msg := new byte[][0xFE, 0xA0, 0x00, 0xFD];
    if poweron != 0 {
      msg[2] := 0x01;
    }
    assert msg[..4] == PwrFrame(poweron);
    var n := os.Write(fd, msg, 4, w);
  }
}

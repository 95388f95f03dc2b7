/** The wire format shared by both relay directions: marker bytes, the packet
    type codes that `read_data` returns, the canned handshake replies, the two
    frames the relay originates, and the classification rule that
    `read_data` applies to the bytes accumulated in a transfer buffer.

    The numeric values of the PKT_TYPE_* codes and of RDBUF_SIZE live in
    common.h, which is not part of this model. The four type codes that are
    wire bytes are the ones the frames in common.c carry; the four status
    codes are chosen outside the byte range 0..255, so that no type byte of a
    complete frame can be mistaken for a status. */
module Protocol {

  /** An octet on the wire (`uint8_t`). */
  newtype byte = b: int | 0 <= b < 256

  /** Start and end markers of a delimited frame. */
  const START: byte := 0xFE
  const END: byte := 0xFD
  /** A lone 0x00 byte is the end-of-stream sentinel. */
  const EOS_BYTE: byte := 0x00

  /** Type bytes that the dispatcher handles itself. */
  const PKT_TYPE_KEEPALIVE: int := 0x0B
  const PKT_TYPE_PWK: int := 0xA0
  const PKT_TYPE_INIT1: int := 0xF0
  const PKT_TYPE_INIT2: int := 0xF1

  /** Buffer and channel statuses: never a type byte. */
  const PKT_TYPE_INVALID: int := -1
  const PKT_TYPE_INCOMPLETE: int := -2
  const PKT_TYPE_EOS: int := -3
  const PKT_TYPE_EOF: int := -4

  /** Capacity of one transfer buffer. The proofs use only that a four-byte
      frame fits in it. */
  const RDBUF_SIZE: nat := 200

  /** The canned replies to INIT1 and INIT2. */
  const INIT1_RESP: seq<byte> := [0xFE, 0xF0, 0xFD]
  const INIT2_RESP: seq<byte> := [0xFE, 0xF1, 0xFD]

  /** `t` is a raw type byte taken from offset 1 of a complete frame. */
  predicate IsTypeByte(t: int) {
    0 <= t < 256
  }

  /** The classification of a non-empty buffer. It looks only at the first
      byte, the last byte and (for a complete frame) the byte at offset 1;
      the interior is never scanned. */
  function Classify(s: seq<byte>): (t: int)
    requires |s| > 0
    // a type byte comes out exactly when the buffer is delimited, and it is
    // the byte at offset 1 (for [FE, FD] that is the end marker itself)
    ensures IsTypeByte(t) <==> s[0] == START && s[|s| - 1] == END
    ensures IsTypeByte(t) ==> |s| >= 2 && t == s[1] as int
    // started but not yet terminated
    ensures t == PKT_TYPE_INCOMPLETE <==> s[0] == START && s[|s| - 1] != END
    // the lone sentinel byte, and nothing else
    ensures t == PKT_TYPE_EOS <==> s == [EOS_BYTE]
    // every other first byte, or the sentinel followed by more bytes
    ensures t == PKT_TYPE_INVALID <==> s[0] != START && s != [EOS_BYTE]
    ensures t != PKT_TYPE_EOF
  {
    if s[0] == START then
      if s[|s| - 1] == END then s[1] as int else PKT_TYPE_INCOMPLETE
    else if s[0] == EOS_BYTE && |s| == 1 then
      PKT_TYPE_EOS
    else
      PKT_TYPE_INVALID
  }

  /** `s` holds no end marker. */
  ghost predicate NoEndMarker(s: seq<byte>) {
    s == [] || (s[0] != END && NoEndMarker(s[1..]))
  }

  lemma {:induction false} NoEndMarkerAt(s: seq<byte>, i: nat)
    requires NoEndMarker(s) && i < |s|
    ensures s[i] != END
  {
    if i > 0 {
      NoEndMarkerAt(s[1..], i - 1);
    }
  }

  lemma {:induction false} NoEndMarkerIntro(s: seq<byte>)
    requires forall i :: 0 <= i < |s| ==> s[i] != END
    ensures NoEndMarker(s)
  {
    if s != [] {
      assert forall i :: 0 <= i < |s| - 1 ==> s[1..][i] == s[i + 1];
      NoEndMarkerIntro(s[1..]);
    }
  }

  /** A frame that starts with the start marker, ends with the end marker and
      holds no end marker before its last byte: however it is cut into reads,
      no proper prefix of it looks complete. */
  ghost predicate IsUnbrokenFrame(f: seq<byte>) {
    |f| >= 2 && f[0] == START && f[|f| - 1] == END && NoEndMarker(f[..|f| - 1])
  }

  /** The keepalive frame the relay originates. */
  function KeepaliveFrame(): (f: seq<byte>)
    ensures IsUnbrokenFrame(f) && f[1] as int == PKT_TYPE_KEEPALIVE
    ensures |f| == 4 && f[2] == 0x00
  {
    var f := [START, 0x0B, 0x00, END];
    NoEndMarkerIntro(f[..3]);
    f
  }

  /** The power on/off frame the relay originates; its payload byte is 0x01
      for any non-zero `poweron` and 0x00 otherwise. */
  function PwrFrame(poweron: int): (f: seq<byte>)
    ensures IsUnbrokenFrame(f) && f[1] as int == PKT_TYPE_PWK
    ensures |f| == 4 && (f[2] == 0x01 <==> poweron != 0) && (f[2] == 0x00 <==> poweron == 0)
  {
    var f := [START, 0xA0, if poweron != 0 then 0x01 else 0x00, END];
    NoEndMarkerIntro(f[..3]);
    f
  }
}

/** What successive `transfer_data` cycles on one buffer return when a byte
    stream arrives cut into reads. Each cycle returns `ReadOutcome` of the
    buffered bytes and the read, and leaves `Retained` of them buffered (the
    postconditions of `Relay.TransferData`); `Feed` chains those steps. */
module Framing {
  import opened Protocol
  import opened Relay

  /** The bytes of a series of reads, in order. */
  function Concat(chunks: seq<seq<byte>>): seq<byte> {
    if chunks == [] then [] else chunks[0] + Concat(chunks[1..])
  }

  /** No read in the series returned 0 bytes. */
  ghost predicate AllNonEmpty(chunks: seq<seq<byte>>) {
    forall i :: 0 <= i < |chunks| ==> chunks[i] != []
  }

  /** The codes returned by one `transfer_data` cycle per read, on a buffer
      that holds `acc` before the first. */
  function Feed(acc: seq<byte>, chunks: seq<seq<byte>>): (r: seq<int>)
    ensures |r| == |chunks|
    decreases |chunks|
  {
    if chunks == [] then []
    else [ReadOutcome(acc, chunks[0])] + Feed(Retained(acc, chunks[0]), chunks[1..])
  }

  /** The bytes left buffered after those cycles. */
  function Buffered(acc: seq<byte>, chunks: seq<seq<byte>>): seq<byte>
    decreases |chunks|
  {
    if chunks == [] then acc else Buffered(Retained(acc, chunks[0]), chunks[1..])
  }

  /** `n` cycles that each returned `code`. */
  function Repeat(code: int, n: nat): seq<int> {
    if n == 0 then [] else [code] + Repeat(code, n - 1)
  }

  /** Every read in the series asks for no more than the free space the
      buffer has when it is issued: `read` is called with count
      `RDBUF_SIZE - wridx`, which is what `TransferData` requires of each
      cycle. */
  predicate Feasible(acc: seq<byte>, chunks: seq<seq<byte>>)
    decreases |chunks|
  {
    chunks == [] ||
    (|acc| + |chunks[0]| <= RDBUF_SIZE && Feasible(Retained(acc, chunks[0]), chunks[1..]))
  }

  /** A read that, into an empty buffer, can only be discarded: its first byte
      is neither the start marker nor a lone end-of-stream byte. */
  ghost predicate IsGarbage(c: seq<byte>) {
    c != [] && c[0] != START && c != [EOS_BYTE]
  }

  /** One code per read, and a cycle returns EOF exactly when its read
      returned no bytes. */
  lemma {:induction false} FeedEof(acc: seq<byte>, chunks: seq<seq<byte>>, i: nat)
    requires i < |chunks|
    ensures Feed(acc, chunks)[i] == PKT_TYPE_EOF <==> chunks[i] == []
    decreases i
  {
    if i > 0 {
      FeedEof(Retained(acc, chunks[0]), chunks[1..], i - 1);
    }
  }

  lemma {:induction false} ConcatNonEmpty(chunks: seq<seq<byte>>)
    requires AllNonEmpty(chunks)
    ensures Concat(chunks) == [] <==> chunks == []
  {
    if chunks != [] {
      assert chunks[0] != [];
    }
  }

  /** Feeding a series of reads is feeding its first part and then, from
      what that part left buffered, the rest. */
  lemma {:induction false} FeedAppend(acc: seq<byte>, a: seq<seq<byte>>, b: seq<seq<byte>>)
    ensures Feed(acc, a + b) == Feed(acc, a) + Feed(Buffered(acc, a), b)
    ensures Buffered(acc, a + b) == Buffered(Buffered(acc, a), b)
    decreases |a|
  {
    if a == [] {
      assert a + b == b;
    } else {
      assert (a + b)[0] == a[0];
      assert (a + b)[1..] == a[1..] + b;
      FeedAppend(Retained(acc, a[0]), a[1..], b);
    }
  }

  /** A cycle that returns `t` and leaves nothing for further reads. */
  lemma FeedLast(acc: seq<byte>, chunks: seq<seq<byte>>, t: int)
    requires |chunks| == 1 && ReadOutcome(acc, chunks[0]) == t
    ensures Feed(acc, chunks) == Repeat(PKT_TYPE_INCOMPLETE, 0) + [t]
  {
    assert chunks[1..] == [];
  }

  /** Peeling the first of `n` repeated codes off a series that ends in `t`. */
  lemma RepeatThen(code: int, n: nat, t: int)
    requires n >= 1
    ensures Repeat(code, n) + [t] == [code] + (Repeat(code, n - 1) + [t])
  {
    assert Repeat(code, n) == [code] + Repeat(code, n - 1);
  }

  /** A cycle that finds the frame incomplete, followed by cycles that
      return `Repeat(PKT_TYPE_INCOMPLETE, n - 1) + [t]`. */
  lemma FeedIncomplete(acc: seq<byte>, chunks: seq<seq<byte>>, next: seq<byte>, t: int)
    requires |chunks| >= 2
    requires ReadOutcome(acc, chunks[0]) == PKT_TYPE_INCOMPLETE && Retained(acc, chunks[0]) == next
    requires Feed(next, chunks[1..]) == Repeat(PKT_TYPE_INCOMPLETE, |chunks[1..]| - 1) + [t]
    ensures Feed(acc, chunks) == Repeat(PKT_TYPE_INCOMPLETE, |chunks| - 1) + [t]
  {
    assert Feed(acc, chunks) == [PKT_TYPE_INCOMPLETE] + Feed(next, chunks[1..]);
    RepeatThen(PKT_TYPE_INCOMPLETE, |chunks| - 1, t);
  }

  lemma AllNonEmptyTail(chunks: seq<seq<byte>>)
    requires AllNonEmpty(chunks) && chunks != []
    ensures chunks[0] != [] && AllNonEmpty(chunks[1..])
  {
    forall i | 0 <= i < |chunks| - 1 ensures chunks[1..][i] != [] {
      assert chunks[1..][i] == chunks[i + 1];
    }
  }

  /** One read of an unbroken frame `f` of which `acc` is buffered and
      `rest` is still to come: it completes the frame when it carries the
      last byte, and leaves it incomplete and buffered otherwise. */
  lemma ReadUnbrokenFrame(f: seq<byte>, acc: seq<byte>, rest: seq<byte>, c: seq<byte>, tail: seq<byte>)
    requires IsUnbrokenFrame(f) && f == acc + rest
    requires c != [] && rest == c + tail
    ensures tail == [] ==> ReadOutcome(acc, c) == f[1] as int && Retained(acc, c) == []
    ensures tail != [] ==>
      ReadOutcome(acc, c) == PKT_TYPE_INCOMPLETE && Retained(acc, c) == acc + c &&
      f == (acc + c) + tail
  {
    assert f == (acc + c) + tail;
    if tail != [] {
      var n := |acc + c|;
      assert (acc + c)[n - 1] == f[n - 1];
      NoEndMarkerAt(f[..|f| - 1], n - 1);
    }
  }

  /** The read that carries the frame's last byte is the last read, and it
      returns the frame's type byte. */
  lemma UnbrokenFrameLastRead(f: seq<byte>, acc: seq<byte>, chunks: seq<seq<byte>>)
    requires IsUnbrokenFrame(f) && AllNonEmpty(chunks) && f == acc + Concat(chunks)
    requires chunks != [] && Concat(chunks[1..]) == []
    ensures Feed(acc, chunks) == Repeat(PKT_TYPE_INCOMPLETE, |chunks| - 1) + [f[1] as int]
  {
    AllNonEmptyTail(chunks);
    ConcatNonEmpty(chunks[1..]);
    ReadUnbrokenFrame(f, acc, Concat(chunks), chunks[0], []);
    FeedLast(acc, chunks, f[1] as int);
  }

  /** A read that stops short of the frame's last byte returns INCOMPLETE,
      followed by what the remaining reads return from the longer buffered
      prefix. */
  lemma UnbrokenFrameEarlyRead(f: seq<byte>, acc: seq<byte>, chunks: seq<seq<byte>>)
    requires IsUnbrokenFrame(f) && AllNonEmpty(chunks) && f == acc + Concat(chunks)
    requires |chunks| >= 2 && Concat(chunks[1..]) != []
    requires f == (acc + chunks[0]) + Concat(chunks[1..])
    requires Feed(acc + chunks[0], chunks[1..]) == Repeat(PKT_TYPE_INCOMPLETE, |chunks| - 2) + [f[1] as int]
    ensures Feed(acc, chunks) == Repeat(PKT_TYPE_INCOMPLETE, |chunks| - 1) + [f[1] as int]
  {
    AllNonEmptyTail(chunks);
    ReadUnbrokenFrame(f, acc, Concat(chunks), chunks[0], Concat(chunks[1..]));
    FeedIncomplete(acc, chunks, acc + chunks[0], f[1] as int);
  }

  /** Where the remaining reads of a frame stand after the first one. */
  lemma UnbrokenFrameFirstRead(f: seq<byte>, acc: seq<byte>, chunks: seq<seq<byte>>)
    requires IsUnbrokenFrame(f) && AllNonEmpty(chunks) && f == acc + Concat(chunks)
    requires Concat(chunks) != []
    ensures chunks != [] && |Concat(chunks[1..])| < |Concat(chunks)|
    ensures AllNonEmpty(chunks[1..])
    ensures Concat(chunks[1..]) == [] <==> chunks[1..] == []
    ensures f == (acc + chunks[0]) + Concat(chunks[1..])
  {
    AllNonEmptyTail(chunks);
    ConcatNonEmpty(chunks[1..]);
    ReadUnbrokenFrame(f, acc, Concat(chunks), chunks[0], Concat(chunks[1..]));
  }

  /** A frame `f` with no end marker before its last byte, of which `acc` is
      already buffered and the rest arrives in any non-empty reads: every
      cycle but the last finds it incomplete, and the last returns its type
      byte. */
  lemma {:induction false} FeedUnbrokenFrame(f: seq<byte>, acc: seq<byte>, chunks: seq<seq<byte>>)
    requires IsUnbrokenFrame(f) && AllNonEmpty(chunks) && f == acc + Concat(chunks)
    requires Concat(chunks) != []
    ensures |chunks| >= 1
    ensures Feed(acc, chunks) == Repeat(PKT_TYPE_INCOMPLETE, |chunks| - 1) + [f[1] as int]
    decreases |Concat(chunks)|
  {
    UnbrokenFrameFirstRead(f, acc, chunks);
    if Concat(chunks[1..]) == [] {
      UnbrokenFrameLastRead(f, acc, chunks);
    } else {
      FeedUnbrokenFrame(f, acc + chunks[0], chunks[1..]);
      UnbrokenFrameEarlyRead(f, acc, chunks);
    }
  }

  /** Reads that, together with what is already buffered, fit the buffer
      are each within the free space when they are issued, however the
      bytes are split. */
  lemma {:induction false} FitsFeasible(acc: seq<byte>, chunks: seq<seq<byte>>)
    requires |acc| + |Concat(chunks)| <= RDBUF_SIZE
    ensures Feasible(acc, chunks)
    decreases |chunks|
  {
    if chunks != [] {
      assert |Concat(chunks)| == |chunks[0]| + |Concat(chunks[1..])|;
      FitsFeasible(Retained(acc, chunks[0]), chunks[1..]);
    }
  }

  /** A frame longer than the buffer cannot arrive through reads within the
      free space: no proper prefix of it completes, so it stays buffered
      until the read that would complete it asks for more than is free. */
  lemma {:induction false} LongFrameInfeasible(f: seq<byte>, acc: seq<byte>, chunks: seq<seq<byte>>)
    requires IsUnbrokenFrame(f) && AllNonEmpty(chunks) && f == acc + Concat(chunks)
    requires Concat(chunks) != [] && |f| > RDBUF_SIZE
    ensures !Feasible(acc, chunks)
    decreases |Concat(chunks)|
  {
    UnbrokenFrameFirstRead(f, acc, chunks);
    if Concat(chunks[1..]) != [] {
      ReadUnbrokenFrame(f, acc, Concat(chunks), chunks[0], Concat(chunks[1..]));
      LongFrameInfeasible(f, acc + chunks[0], chunks[1..]);
    }
  }

  /** The reads of an unbroken frame are all within the free space exactly
      when the whole frame fits the buffer. */
  lemma UnbrokenFrameFeasible(f: seq<byte>, acc: seq<byte>, chunks: seq<seq<byte>>)
    requires IsUnbrokenFrame(f) && AllNonEmpty(chunks) && f == acc + Concat(chunks)
    requires Concat(chunks) != []
    ensures Feasible(acc, chunks) <==> |f| <= RDBUF_SIZE
  {
    if |f| <= RDBUF_SIZE {
      FitsFeasible(acc, chunks);
    } else {
      LongFrameInfeasible(f, acc, chunks);
    }
  }

  /** A series of reads is within the free space exactly when its first
      part is and the rest is, from what the first part left buffered. */
  lemma {:induction false} FeasibleAppend(acc: seq<byte>, a: seq<seq<byte>>, b: seq<seq<byte>>)
    ensures Feasible(acc, a + b) <==> Feasible(acc, a) && Feasible(Buffered(acc, a), b)
    decreases |a|
  {
    if a == [] {
      assert a + b == b;
    } else {
      assert (a + b)[0] == a[0];
      assert (a + b)[1..] == a[1..] + b;
      FeasibleAppend(Retained(acc, a[0]), a[1..], b);
    }
  }

  /** The keepalive frame, fed to an empty buffer in any split, is
      incomplete until its last byte arrives and is then a keepalive; every
      read of it is within the free space. */
  lemma KeepaliveAnySplit(chunks: seq<seq<byte>>)
    requires AllNonEmpty(chunks) && Concat(chunks) == KeepaliveFrame()
    ensures |chunks| >= 1
    ensures Feed([], chunks) == Repeat(PKT_TYPE_INCOMPLETE, |chunks| - 1) + [PKT_TYPE_KEEPALIVE]
    ensures Feasible([], chunks)
  {
    var f := KeepaliveFrame();
    assert f == [] + Concat(chunks) && |f| <= RDBUF_SIZE;
    FeedUnbrokenFrame(f, [], chunks);
    UnbrokenFrameFeasible(f, [], chunks);
  }

  /** The power frame, fed to an empty buffer in any split, is incomplete
      until its last byte arrives and is then a power-key packet; every read
      of it is within the free space. */
  lemma PwrAnySplit(poweron: int, chunks: seq<seq<byte>>)
    requires AllNonEmpty(chunks) && Concat(chunks) == PwrFrame(poweron)
    ensures |chunks| >= 1
    ensures Feed([], chunks) == Repeat(PKT_TYPE_INCOMPLETE, |chunks| - 1) + [PKT_TYPE_PWK]
    ensures Feasible([], chunks)
  {
    var f := PwrFrame(poweron);
    assert f == [] + Concat(chunks) && |f| <= RDBUF_SIZE;
    FeedUnbrokenFrame(f, [], chunks);
    UnbrokenFrameFeasible(f, [], chunks);
  }

  /** Reads of garbage into an empty buffer are each discarded as invalid,
      and the buffer never grows. */
  lemma {:induction false} FeedGarbage(chunks: seq<seq<byte>>)
    requires forall i :: 0 <= i < |chunks| ==> IsGarbage(chunks[i])
    ensures Feed([], chunks) == Repeat(PKT_TYPE_INVALID, |chunks|)
    ensures Buffered([], chunks) == []
    ensures Feasible([], chunks) <==> forall i :: 0 <= i < |chunks| ==> |chunks[i]| <= RDBUF_SIZE
  {
    if chunks != [] {
      assert IsGarbage(chunks[0]);
      assert [] + chunks[0] == chunks[0];
      assert ReadOutcome([], chunks[0]) == PKT_TYPE_INVALID;
      FeedGarbage(chunks[1..]);
      assert forall i :: 0 <= i < |chunks| - 1 ==> chunks[1..][i] == chunks[i + 1];
      assert Repeat(PKT_TYPE_INVALID, |chunks|) == [PKT_TYPE_INVALID] + Repeat(PKT_TYPE_INVALID, |chunks| - 1);
    }
  }

  /** After any run of garbage reads, the next unbroken frame is recognised
      with its own type byte, however it is split: the stream
      resynchronises on the start marker. All those reads are within the
      free space exactly when each garbage read fits the empty buffer and
      the frame fits it too. */
  lemma ResyncAfterGarbage(garbage: seq<seq<byte>>, f: seq<byte>, chunks: seq<seq<byte>>)
    requires forall i :: 0 <= i < |garbage| ==> IsGarbage(garbage[i])
    requires IsUnbrokenFrame(f) && AllNonEmpty(chunks) && Concat(chunks) == f
    ensures |chunks| >= 1
    ensures Feed([], garbage + chunks) == Repeat(PKT_TYPE_INVALID, |garbage|) + (Repeat(PKT_TYPE_INCOMPLETE, |chunks| - 1) + [f[1] as int])
    ensures Feasible([], garbage + chunks) <==>
      (forall i :: 0 <= i < |garbage| ==> |garbage[i]| <= RDBUF_SIZE) && |f| <= RDBUF_SIZE
  {
    FeedAppend([], garbage, chunks);
    FeasibleAppend([], garbage, chunks);
    FeedGarbage(garbage);
    assert f == [] + Concat(chunks);
    FeedUnbrokenFrame(f, [], chunks);
    UnbrokenFrameFeasible(f, [], chunks);
  }

  /** Classification looks only at the last byte read, so an end marker
      inside a frame completes it early when a read happens to stop there:
      [FE, FD, 01, FD] in one read is one packet of type FD, but read as
      [FE, FD] and then [01, FD] it is a packet of type FD followed by an
      invalid one. */
  lemma SplitAtInteriorEndMarker()
    ensures Feed([], [[0xFE, 0xFD, 0x01, 0xFD]]) == [0xFD]
    ensures Feed([], [[0xFE, 0xFD], [0x01, 0xFD]]) == [0xFD, PKT_TYPE_INVALID]
  {
    var a: seq<byte> := [0xFE, 0xFD];
    var b: seq<byte> := [0x01, 0xFD];
    var whole: seq<byte> := [0xFE, 0xFD, 0x01, 0xFD];
    assert [] + a == a && [] + b == b && [] + whole == whole;
  }

  /** A read that carries bytes past a frame's end marker hides the marker:
      the keepalive followed by the start of a power frame is still
      incomplete, and once the power frame ends the buffer is classified by
      its first frame alone, so the power frame is lost. */
  lemma ReadPastEndMarker()
    ensures Feed([], [[0xFE, 0x0B, 0x00, 0xFD, 0xFE], [0xA0, 0x01, 0xFD]]) ==
      [PKT_TYPE_INCOMPLETE, PKT_TYPE_KEEPALIVE]
  {
    var a: seq<byte> := [0xFE, 0x0B, 0x00, 0xFD, 0xFE];
    var b: seq<byte> := [0xA0, 0x01, 0xFD];
    assert [] + a == a;
    assert (a + b)[0] == 0xFE && (a + b)[1] == 0x0B && (a + b)[|a + b| - 1] == 0xFD;
  }
}

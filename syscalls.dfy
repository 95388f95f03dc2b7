/** The part of the operating system that the relay calls: `write` on a
    file descriptor. What the kernel does with the bytes is outside the
    model; each call is recorded, in order, in a ghost log, and its return
    value is supplied by the caller, anywhere from -1 (failure) to the
    number of bytes asked for (a short or complete write). */
module Syscalls {
  import opened Protocol

  /** One `write(fd, buf, count)` call and the bytes it was handed. */
  datatype WriteCall = WriteCall(fd: int, bytes: seq<byte>)

  class Os {
    /** Every write issued so far, oldest first. */
    ghost var log: seq<WriteCall>

    constructor ()
      ensures log == []
    {
      log := [];
    }

    /** `write(fd, buf, count)`, returning `result`. */
    method Write(fd: int, buf: array<byte>, count: nat, result: int) returns (n: int)
      requires count <= buf.Length
      requires -1 <= result <= count
      modifies this
      ensures n == result
      ensures log == old(log) + [WriteCall(fd, buf[..count])]
    {
      log := log + [WriteCall(fd, buf[..count])];
      n := result;
    }
  }
}

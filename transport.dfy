/** The serial port the driver talks through, reduced to what the driver
    relies on: `write` sends a frame, and `read(n)` returns at most `n`
    bytes, fewer only when the timeout elapses first. The bytes the sensor
    delivers before each timeout are the receive buffer `rx`; which bytes
    arrive, and when, is left to whoever sets `rx` up. */
module SerialPort {
  import opened HpmProtocol

  /** One operation on the port, as the ghost log records it. */
  datatype Event =
    | Wrote(frame: seq<uint8>)
    | ReadBytes(maxLength: nat, received: seq<uint8>)

  /** The bytes a blocking `read(n)` returns from the buffered input `s`:
      never more than `n`, always a prefix of `s`, and short only when `s`
      holds nothing more. */
  function Take(s: seq<uint8>, n: nat): (r: seq<uint8>)
    ensures |r| <= n && r <= s
    ensures |r| < n ==> r == s
  {
    if |s| <= n then s else s[..n]
  }

  class Port {
    /** The read timeout; 0 stands for none configured (Python's None or 0,
        both falsy). */
    const timeout: nat
    /** Bytes the sensor delivers before the next timeouts, in order. */
    var rx: seq<uint8>
    /** Every write and read on this port, oldest first. */
    ghost var log: seq<Event>

    constructor (timeout: nat, rx: seq<uint8>)
      ensures this.timeout == timeout && this.rx == rx && log == []
    {
      this.timeout := timeout;
      this.rx := rx;
      log := [];
    }

    method Write(frame: seq<uint8>)
      modifies this
      ensures log == old(log) + [Wrote(frame)]
      ensures rx == old(rx)
    {
      log := log + [Wrote(frame)];
    }

    /** `read(n)`. Without a timeout a short buffer would block it forever,
        so only a port with a timeout can be read. */
    method Read(n: nat) returns (received: seq<uint8>)
      requires timeout > 0
      modifies this
      ensures received == Take(old(rx), n)
      ensures rx == old(rx)[|received|..]
      ensures log == old(log) + [ReadBytes(n, received)]
    {
      received := Take(rx, n);
      rx := rx[|received|..];
      log := log + [ReadBytes(n, received)];
    }
  }
}

/** The HPM driver object: it owns a port, switches auto-send off when it
    starts, and polls the sensor for one PM2.5/PM10 reading at a time. */
module HpmDriver {
  import opened HpmProtocol
  import opened SerialPort

  /** Bytes the start-up flush reads and throws away, at most. */
  const FLUSH_LENGTH: nat := 999
  /** Length of the reply to READ_PM_RESULTS. */
  const REPLY_LENGTH: nat := 8

  /** What a poll yields for the bytes `rx` waiting on the port: nothing
      waiting gives Absent, 1 to 7 bytes give Incomplete, and from 8 bytes on
      only the first 8 are looked at, so a reply is never "too long"; it
      decodes exactly when those 8 bytes carry a valid checksum. */
  lemma PollOutcome(rx: seq<uint8>)
    ensures Classify(Take(rx, REPLY_LENGTH)) == Absent <==> rx == []
    ensures Classify(Take(rx, REPLY_LENGTH)) == Incomplete <==> 0 < |rx| < REPLY_LENGTH
    ensures Classify(Take(rx, REPLY_LENGTH)).Measurement? <==>
              |rx| >= REPLY_LENGTH && IsChecksumValid(rx[..REPLY_LENGTH])
    ensures Classify(Take(rx, REPLY_LENGTH)) == ChecksumMismatch <==>
              |rx| >= REPLY_LENGTH && !IsChecksumValid(rx[..REPLY_LENGTH])
  {
    if |rx| >= REPLY_LENGTH {
      assert Take(rx, REPLY_LENGTH) == rx[..REPLY_LENGTH];
    }
  }

  /** How construction ends: a driver, or the failed `assert` that the
      port has a timeout. */
  datatype Startup = Ready(driver: HPMDriver) | TimeoutNotSet

  class HPMDriver {
    const port: Port
    /** Whether the start-up sequence of `__init__` has run to its end. */
    ghost var started: bool

    /** A driver is only handed out for a port with a timeout, and only once
        auto-send was switched off and the stale input flushed. */
    ghost predicate Valid()
      reads this
    {
      port.timeout > 0 && started
    }

    /** `self.port = port`, the first step of construction. */
    constructor Attach(port: Port)
      ensures this.port == port && !started
    {
      this.port := port;
      started := false;
    }

    /** `__init__`: store the port, send STOP_AUTO_SEND, check that the port
        has a timeout (after the write, as the source does), then read up to
        999 stale bytes and discard them. */
    static method Create(port: Port) returns (s: Startup)
      modifies port
      ensures s.Ready? <==> port.timeout > 0
      ensures s.Ready? ==> fresh(s.driver) && s.driver.port == port && s.driver.started && s.driver.Valid()
      ensures port.timeout == 0 ==>
        port.log == old(port.log) + [Wrote(STOP_AUTO_SEND)] && port.rx == old(port.rx)
      ensures port.timeout > 0 ==>
        port.log == old(port.log) + [Wrote(STOP_AUTO_SEND), ReadBytes(FLUSH_LENGTH, Take(old(port.rx), FLUSH_LENGTH))]
      ensures port.timeout > 0 ==> port.rx == old(port.rx)[|Take(old(port.rx), FLUSH_LENGTH)|..]
    {
      var driver := new HPMDriver.Attach(port);
      driver.AutosendOff();
      if port.timeout == 0 {
        return TimeoutNotSet;
      }
      var stale := port.Read(FLUSH_LENGTH);
      driver.started := true;
      return Ready(driver);
    }

    /** `autosend_off`: one write of STOP_AUTO_SEND, nothing read. */
    method AutosendOff()
      modifies port
      ensures port.log == old(port.log) + [Wrote(STOP_AUTO_SEND)]
      ensures port.rx == old(port.rx)
    {
      port.Write(STOP_AUTO_SEND);
    }

    /** `autosend_on`: one write of ENABLE_AUTO_SEND, nothing read. */
    method AutosendOn()
      modifies port
      ensures port.log == old(port.log) + [Wrote(ENABLE_AUTO_SEND)]
      ensures port.rx == old(port.rx)
    {
      port.Write(ENABLE_AUTO_SEND);
    }

    /** `read_particle_measurement`: write READ_PM_RESULTS, read at most 8
        bytes, and sort them into an outcome. Exactly these two operations
        reach the port, and the outcome depends on the bytes read alone. */
    method ReadParticleMeasurement() returns (o: Outcome)
      requires Valid()
      modifies port
      ensures port.log == old(port.log) + [Wrote(READ_PM_RESULTS), ReadBytes(REPLY_LENGTH, Take(old(port.rx), REPLY_LENGTH))]
      ensures port.rx == old(port.rx)[|Take(old(port.rx), REPLY_LENGTH)|..]
      ensures o == Classify(Take(old(port.rx), REPLY_LENGTH))
    {
      port.Write(READ_PM_RESULTS);
      var reply := port.Read(REPLY_LENGTH);
      if reply == [] {
        // Timeout: Python returns None.
        return Absent;
      }
      if |reply| != REPLY_LENGTH {
        // Too few bytes: Python logs an error and returns None.
        return Incomplete;
      }
      if !IsChecksumValid(reply) {
        // Python's `assert self.is_checksum_valid(result)` fails here.
        return ChecksumMismatch;
      }
      var pm25 := (256 * reply[3] as int + reply[4] as int) as uint16;
      var pm10 := (256 * reply[5] as int + reply[6] as int) as uint16;
      return Measurement(pm25, pm10);
    }
  }
}

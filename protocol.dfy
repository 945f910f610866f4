/** Wire format of the Honeywell HPM particulate sensor: bytes, the
    modular-sum checksum trailer, the fixed command frames and the decoding
    of the 8-byte "read PM results" reply. Everything here is pure. */
module HpmProtocol {

  newtype uint8 = x: int | 0 <= x < 0x100
  newtype uint16 = x: int | 0 <= x < 0x1_0000

  // ---------------------------------------------------------------------
  // Checksum
  // ---------------------------------------------------------------------

  /** The sum of the bytes, as Python's built-in `sum` computes it. */
  function Sum(s: seq<uint8>): (n: int)
    ensures 0 <= n
  {
    if s == [] then 0 else s[0] as int + Sum(s[1..])
  }

  /** The trailer byte the datasheet prescribes for the bytes `prefix`:
      `(65536 - sum(prefix)) % 256`. Python's `%` floors and Dafny's is
      Euclidean; for the positive divisor 256 the two agree, also when
      `65536 - sum(prefix)` is negative (prefixes of more than 257 bytes).
      Adding the trailer to the prefix makes the byte sum vanish modulo 256. */
  function Checksum(prefix: seq<uint8>): (c: uint8)
    ensures (Sum(prefix) + c as int) % 256 == 0
  {
    ((0x1_0000 - Sum(prefix)) % 256) as uint8
  }

  /** `is_checksum_valid`: the last byte of the frame equals the checksum
      of all the bytes before it. Python raises IndexError on an empty
      frame, so callers must pass at least one byte. */
  predicate IsChecksumValid(frame: seq<uint8>)
    requires |frame| > 0
  {
    frame[|frame| - 1] == Checksum(frame[..|frame| - 1])
  }

  lemma {:induction false} SumAppend(s: seq<uint8>, b: uint8)
    ensures Sum(s + [b]) == Sum(s) + b as int
  {
    if s == [] {
      assert s + [b] == [b];
    } else {
      assert (s + [b])[1..] == s[1..] + [b];
      SumAppend(s[1..], b);
    }
  }

  lemma {:induction false} SumUpdate(s: seq<uint8>, i: nat, b: uint8)
    requires i < |s|
    ensures Sum(s[i := b]) == Sum(s) - s[i] as int + b as int
  {
    if i > 0 {
      assert s[i := b][1..] == s[1..][i - 1 := b];
      SumUpdate(s[1..], i - 1, b);
    }
  }

  /** Two bytes that are congruent modulo 256 are equal. */
  lemma ByteResidueUnique(x: uint8, y: uint8, k: int)
    requires (k + x as int) % 256 == 0 && (k + y as int) % 256 == 0
    ensures x == y
  {
    var q := (k + x as int) / 256;
    var r := (k + y as int) / 256;
    assert k + x as int == 256 * q;
    assert k + y as int == 256 * r;
    assert y as int - x as int == 256 * (r - q);
  }

  /** The checksum rule read the other way: a frame is valid exactly when
      the sum of ALL its bytes, trailer included, is a multiple of 256. */
  lemma ValidIffSumVanishes(frame: seq<uint8>)
    requires |frame| > 0
    ensures IsChecksumValid(frame) <==> Sum(frame) % 256 == 0
  {
    var n := |frame| - 1;
    var prefix, t := frame[..n], frame[n];
    assert frame == prefix + [t];
    SumAppend(prefix, t);
    var s, c := Sum(prefix), Checksum(prefix);
    assert Sum(frame) == s + t as int;
    ResidueIff(s, t, c);
    assert IsChecksumValid(frame) <==> t == c;
  }

  /** Given the byte `c` that cancels `s` modulo 256, a byte `t` cancels
      `s` exactly when it is `c`. */
  lemma ResidueIff(s: int, t: uint8, c: uint8)
    requires (s + c as int) % 256 == 0
    ensures t == c <==> (s + t as int) % 256 == 0
  {
    if (s + t as int) % 256 == 0 {
      ByteResidueUnique(t, c, s);
    }
  }

  /** For every prefix exactly one trailer byte completes a valid frame:
      the computed checksum validates and every other byte fails. */
  lemma TrailerUnique(prefix: seq<uint8>, b: uint8)
    ensures IsChecksumValid(prefix + [b]) <==> b == Checksum(prefix)
  {
    assert (prefix + [b])[..|prefix|] == prefix;
  }

  /** Changing any one byte of a valid frame, trailer or not, to a
      different value makes the frame invalid. */
  lemma SingleByteCorruptionDetected(frame: seq<uint8>, i: nat, b: uint8)
    requires |frame| > 0 && i < |frame|
    requires IsChecksumValid(frame) && b != frame[i]
    ensures !IsChecksumValid(frame[i := b])
  {
    ValidIffSumVanishes(frame);
    ValidIffSumVanishes(frame[i := b]);
    SumUpdate(frame, i, b);
    if Sum(frame[i := b]) % 256 == 0 {
      ByteResidueUnique(frame[i], b, Sum(frame) - frame[i] as int);
      assert false;
    }
  }

  /** Adding a non-zero amount (modulo 256) to the trailer of a valid
      frame makes it invalid. */
  lemma CorruptedTrailerRejected(frame: seq<uint8>, delta: int)
    requires |frame| > 0 && IsChecksumValid(frame)
    requires delta % 256 != 0
    ensures !IsChecksumValid(frame[|frame| - 1 := ((frame[|frame| - 1] as int + delta) % 256) as uint8])
  {
    var n := |frame| - 1;
    SingleByteCorruptionDetected(frame, n, ((frame[n] as int + delta) % 256) as uint8);
  }

  // ---------------------------------------------------------------------
  // Command frames
  // ---------------------------------------------------------------------

  const READ_PM_RESULTS: seq<uint8> := [0x68, 0x01, 0x04, 0x93]
  const START_PARTICLE_MEASUREMENT: seq<uint8> := [0x68, 0x01, 0x01, 0x96]
  const STOP_PARTICLE_MEASUREMENT: seq<uint8> := [0x68, 0x01, 0x02, 0x95]
  /** Carries the coefficient 0x64 (100); nothing sends it. */
  const SET_CUSTOMER_ADJ_COEF: seq<uint8> := [0x68, 0x02, 0x08, 0x64, 0x2A]
  const READ_CUSTOMER_ADJ_COEF: seq<uint8> := [0x68, 0x01, 0x10, 0x87]
  const STOP_AUTO_SEND: seq<uint8> := [0x68, 0x01, 0x20, 0x77]
  const ENABLE_AUTO_SEND: seq<uint8> := [0x68, 0x01, 0x40, 0x57]

  /** Every command frame ends in the trailer the checksum rule asks for:
      each is its body followed by Checksum(body). */
  lemma CommandFramesValid()
    ensures READ_PM_RESULTS == [0x68, 0x01, 0x04] + [Checksum([0x68, 0x01, 0x04])]
    ensures START_PARTICLE_MEASUREMENT == [0x68, 0x01, 0x01] + [Checksum([0x68, 0x01, 0x01])]
    ensures STOP_PARTICLE_MEASUREMENT == [0x68, 0x01, 0x02] + [Checksum([0x68, 0x01, 0x02])]
    ensures SET_CUSTOMER_ADJ_COEF == [0x68, 0x02, 0x08, 0x64] + [Checksum([0x68, 0x02, 0x08, 0x64])]
    ensures READ_CUSTOMER_ADJ_COEF == [0x68, 0x01, 0x10] + [Checksum([0x68, 0x01, 0x10])]
    ensures STOP_AUTO_SEND == [0x68, 0x01, 0x20] + [Checksum([0x68, 0x01, 0x20])]
    ensures ENABLE_AUTO_SEND == [0x68, 0x01, 0x40] + [Checksum([0x68, 0x01, 0x40])]
    ensures IsChecksumValid(READ_PM_RESULTS) && IsChecksumValid(START_PARTICLE_MEASUREMENT)
    ensures IsChecksumValid(STOP_PARTICLE_MEASUREMENT) && IsChecksumValid(SET_CUSTOMER_ADJ_COEF)
    ensures IsChecksumValid(READ_CUSTOMER_ADJ_COEF) && IsChecksumValid(STOP_AUTO_SEND)
    ensures IsChecksumValid(ENABLE_AUTO_SEND)
  {
  }

  // ---------------------------------------------------------------------
  // Reply to READ_PM_RESULTS
  // ---------------------------------------------------------------------

  /** What one poll of the sensor yields. The Python driver returns None for
      both Absent (the read timed out with no byte) and Incomplete (1 to 7
      bytes), fails its `assert` on ChecksumMismatch, and returns the tuple
      `(pm25, pm10)` for Measurement. */
  datatype Outcome =
    | Absent
    | Incomplete
    | ChecksumMismatch
    | Measurement(pm25: uint16, pm10: uint16)

  /** Sorts the bytes one `read(8)` returned into an outcome. The frame is
      `head length cmd df1 df2 df3 df4 cs`; only the checksum is checked,
      never head, length or cmd, and the readings are big-endian. */
  function Classify(reply: seq<uint8>): (o: Outcome)
    ensures o.Absent? <==> reply == []
    ensures o.Incomplete? <==> reply != [] && |reply| != 8
    ensures o.ChecksumMismatch? <==> |reply| == 8 && !IsChecksumValid(reply)
    ensures o.Measurement? <==> |reply| == 8 && IsChecksumValid(reply)
  {
    if reply == [] then Absent
    else if |reply| != 8 then Incomplete
    else if !IsChecksumValid(reply) then ChecksumMismatch
    else Measurement((256 * reply[3] as int + reply[4] as int) as uint16,
                     (256 * reply[5] as int + reply[6] as int) as uint16)
  }

  /** The reply a sensor sends for the readings `pm25` and `pm10`, with
      arbitrary head, length and command bytes. */
  function ResponseFrame(head: uint8, length: uint8, cmd: uint8, pm25: uint16, pm10: uint16): (f: seq<uint8>)
    ensures |f| == 8 && IsChecksumValid(f)
  {
    var body := [head, length, cmd,
                 (pm25 / 256) as uint8, (pm25 % 256) as uint8,
                 (pm10 / 256) as uint8, (pm10 % 256) as uint8];
    TrailerUnique(body, Checksum(body));
    body + [Checksum(body)]
  }

  /** Decoding inverts encoding, whatever the head, length and cmd bytes. */
  lemma DecodeResponseFrame(head: uint8, length: uint8, cmd: uint8, pm25: uint16, pm10: uint16)
    ensures Classify(ResponseFrame(head, length, cmd, pm25, pm10)) == Measurement(pm25, pm10)
  {
  }

  lemma HighLowUnique(hi: uint8, lo: uint8)
    ensures (256 * hi as int + lo as int) / 256 == hi as int
    ensures (256 * hi as int + lo as int) % 256 == lo as int
  {
  }

  /** Every reply that decodes to a measurement is the response frame of
      that measurement: nothing but a full, valid frame yields readings. */
  lemma MeasurementOnlyFromResponseFrame(reply: seq<uint8>)
    requires Classify(reply).Measurement?
    ensures reply == ResponseFrame(reply[0], reply[1], reply[2], Classify(reply).pm25, Classify(reply).pm10)
  {
    var pm25, pm10 := Classify(reply).pm25, Classify(reply).pm10;
    HighLowUnique(reply[3], reply[4]);
    HighLowUnique(reply[5], reply[6]);
    assert (pm25 / 256) as uint8 == reply[3] && (pm25 % 256) as uint8 == reply[4];
    assert (pm10 / 256) as uint8 == reply[5] && (pm10 % 256) as uint8 == reply[6];
    var body := [reply[0], reply[1], reply[2], reply[3], reply[4], reply[5], reply[6]];
    assert reply[..7] == body;
    assert reply == body + [Checksum(body)];
  }

  /** A worked example: 68 04 04 00 2D 00 0C has byte sum 169, so its
      trailer is 0x57 and the frame decodes to PM2.5 = 45 and PM10 = 12;
      the same frame ending in 0xCF is rejected. */
  lemma WorkedExample()
    ensures Checksum([0x68, 0x04, 0x04, 0x00, 0x2D, 0x00, 0x0C]) == 0x57
    ensures Classify([0x68, 0x04, 0x04, 0x00, 0x2D, 0x00, 0x0C, 0x57]) == Measurement(45, 12)
    ensures Classify([0x68, 0x04, 0x04, 0x00, 0x2D, 0x00, 0x0C, 0xCF]) == ChecksumMismatch
  {
    var body: seq<uint8> := [0x68, 0x04, 0x04, 0x00, 0x2D, 0x00, 0x0C];
    assert body[7..] == [];
    assert Sum(body[6..]) == 12 by { assert body[6..][1..] == body[7..]; }
    assert Sum(body[5..]) == 12 by { assert body[5..][1..] == body[6..]; }
    assert Sum(body[4..]) == 57 by { assert body[4..][1..] == body[5..]; }
    assert Sum(body[3..]) == 57 by { assert body[3..][1..] == body[4..]; }
    assert Sum(body[2..]) == 61 by { assert body[2..][1..] == body[3..]; }
    assert Sum(body[1..]) == 65 by { assert body[1..][1..] == body[2..]; }
    assert Sum(body) == 169;
    assert [0x68, 0x04, 0x04, 0x00, 0x2D, 0x00, 0x0C, 0x57][..7] == body;
    assert [0x68, 0x04, 0x04, 0x00, 0x2D, 0x00, 0x0C, 0xCF][..7] == body;
  }
}

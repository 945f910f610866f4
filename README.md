# HPM particulate sensor driver, modelled in Dafny

This project models `HPMDriver` of the `pm_monitor` program. The program polls a
Honeywell HPM-series particulate sensor over a serial line for PM2.5 and PM10
readings. The model has three modules:

- `HpmProtocol` (`protocol.dfy`): the pure part. It holds the byte type, the
  datasheet checksum `(65536 - sum(prefix)) % 256` and the checksum test
  `is_checksum_valid`. It also holds the seven command frames, the four
  outcomes of a poll, the decoding of the 8-byte reply
  `head length cmd df1 df2 df3 df4 cs`, and an encoder of such replies that
  serves as the decoder's inverse.
- `SerialPort` (`transport.dfy`): the port the driver owns, reduced to what the
  driver relies on. `Write` sends a frame. `Read(n)` returns at most `n` bytes
  from the bytes the sensor delivers before the timeout (`rx`). A ghost `log`
  records every write and read, so contracts can say exactly which operations
  reached the port.
- `HpmDriver` (`driver.dfy`): the driver class. It has the start-up sequence,
  `autosend_off`, `autosend_on` and `read_particle_measurement`. Each is
  specified by its effect on the port's log and buffer and by the outcome
  `Classify` gives for the bytes read.

Outcomes: the Python method returns `None` for both `Absent` (nothing read)
and `Incomplete` (1 to 7 bytes). It fails its `assert` on `ChecksumMismatch`
and returns the tuple `(pm25, pm10)` for `Measurement`. Construction that
fails its timeout `assert` is the `TimeoutNotSet` result of
`HPMDriver.Create`.

Behaviour of the code that the model keeps:

- Construction writes STOP_AUTO_SEND before it checks the timeout
  (main.py:27-28).
- `is_checksum_valid` accepts any non-empty frame, not only 8-byte frames.
  The model's `IsChecksumValid` requires only a non-empty frame. Python raises
  IndexError on an empty one.
- A reply longer than 8 bytes cannot occur, because the driver reads with
  `read(8)`. Any length other than 0 and 8 counts as `Incomplete`, matching
  `len(result) != 8`. The model does not resynchronise on the head byte.

## Model

| member | source | states |
|---|---|---|
| HpmProtocol.Sum | main.py:60 | the byte sum of a frame prefix is never negative |
| HpmProtocol.Checksum | main.py:60 | the datasheet checksum is a byte, and adding it to the prefix's sum gives a multiple of 256 |
| HpmProtocol.ValidIffSumVanishes | main.py:56-61 | a frame passes `is_checksum_valid` exactly when the sum of all its bytes, trailer included, is a multiple of 256 |
| HpmProtocol.TrailerUnique | main.py:58-61 | for every prefix, appending the computed checksum validates, and appending any other byte fails |
| HpmProtocol.SingleByteCorruptionDetected | main.py:56-61 | changing any single byte of a valid frame to a different value makes the frame fail the check |
| HpmProtocol.CorruptedTrailerRejected | main.py:58-61 | adding a non-zero amount (mod 256) to the trailer of a valid frame makes it fail the check |
| HpmProtocol.CommandFramesValid | main.py:16-22 | each of the seven command frames is its body followed by that body's checksum, e.g. `68 01 04` gets 0x93 and `68 02 08 64` gets 0x2A, so each passes the check |
| HpmProtocol.Classify | main.py:44-54 | no bytes give Absent; any length other than 0 and 8 gives Incomplete; 8 bytes give Measurement exactly when the checksum is valid and ChecksumMismatch otherwise |
| HpmProtocol.ResponseFrame | main.py:52-54 | the big-endian reply frame for a pair of 16-bit readings has 8 bytes and a valid checksum, whatever its head, length and cmd bytes |
| HpmProtocol.DecodeResponseFrame | main.py:52-54 | decoding a reply frame gives back its readings `(256*df1+df2, 256*df3+df4)`; head, length and cmd are not checked |
| HpmProtocol.MeasurementOnlyFromResponseFrame | main.py:52-54 | every reply that decodes to a measurement is exactly the reply frame of that measurement |
| HpmProtocol.WorkedExample | main.py:52-61 | `68 04 04 00 2D 00 0C` has checksum 0x57; with that trailer it decodes to (45, 12), and with 0xCF it is a checksum mismatch |
| SerialPort.Take | main.py:44 | a read of at most n bytes returns a prefix of the waiting bytes, no longer than n, and short only when nothing more was waiting |
| SerialPort.Port.Write | main.py:33 | a write appends its frame to the port's log and leaves the incoming bytes alone |
| SerialPort.Port.Read | main.py:44 | a read returns the first bytes waiting, at most n of them, removes them from the buffer and logs the read |
| HpmDriver.PollOutcome | main.py:44-54 | for the bytes waiting on the port, a poll is Absent iff none wait, Incomplete iff 1 to 7 wait, and otherwise a Measurement or ChecksumMismatch, depending only on whether the first 8 bytes carry a valid checksum |
| HpmDriver.HPMDriver.Attach | main.py:26 | the driver keeps the port it is given and is not yet started, so it cannot be polled until the start-up sequence has run |
| HpmDriver.HPMDriver.Create | main.py:24-30 | construction writes STOP_AUTO_SEND, then fails if the port has no timeout; otherwise it reads up to 999 bytes, discards them and returns a started driver over that port, the only kind that can be polled; nothing else reaches the port |
| HpmDriver.HPMDriver.AutosendOff | main.py:32-33 | exactly one write, of STOP_AUTO_SEND, and no read |
| HpmDriver.HPMDriver.AutosendOn | main.py:35-36 | exactly one write, of ENABLE_AUTO_SEND, and no read |
| HpmDriver.HPMDriver.ReadParticleMeasurement | main.py:38-54 | exactly one write of READ_PM_RESULTS, then exactly one read of at most 8 bytes, and nothing else; the outcome is the classification of the bytes read |

## Left out

- Opening the port with `pyftdi.serialext.serial_for_url`, the environment variable that names it, and the baud rate and timeout values (main.py:7-9). These are foreign library calls and I/O; the port is the `SerialPort.Port` class instead.
- Real blocking and timeout timing. `rx` stands for the bytes that arrive before each timeout. A port without a timeout cannot be read in the model (`Port.Read` requires one), because such a read could block forever. The driver only reads after its timeout check.
- The port's timeout is a constant in the model. The source never changes it after construction.
- Write failures and disconnects (pyserial exceptions) are not modelled; `Write` always succeeds.
- Logging: the `logger.error` call at main.py:50 and the handler setup at main.py:64-69. They only produce output.
- The `__main__` polling loop with `time.sleep(5)` (main.py:71-77). It is outer plumbing, not the driver.
- What the coefficient in SET_CUSTOMER_ADJ_COEF means (main.py:19). It is only a constant, and nothing sends it.

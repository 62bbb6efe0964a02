# Sound level meter logger — a Dafny model

The sound level meter streams frames over a serial line. Each frame is a
key byte followed by payload bytes and ends with the byte 0xA5. The
logger (`src/app/slm-log.py`) reads the stream one byte at a time. It
decodes the packed-BCD noise level of key-0x0D frames and samples it on
two schedules:
- a fine schedule, which goes to InfluxDB and a CSV file;
- a compliance schedule, which goes to a second CSV file.

It also watches for violations with a 20-sample peak tracker, which
reports through Pushover. Two diagnostic tools reuse the same framing:
- `src/test/display-values-on-screen.py` dispatches each frame on its key
  byte to a screen field;
- `src/test/dump-raw-values.py` prints each frame in hex.

The project has six modules:

- `Protocol` (protocol.dfy) holds the byte type, the 0xA5 delimiter and the
  0x0D key. It also holds the nibble helpers and the packed-BCD level in
  integer tenths of a dB, with its encoder and both round trips. The
  lowercase hex rendering of a frame is there too, with its parser.
- `Deframer` (deframer.dfy) is the framing shared by all three programs,
  as functions over a finite sequence of reads (`None` is a read that
  timed out). Its lemmas say what framing means:
  - frames never hold the delimiter;
  - there is one frame per delimiter;
  - the frames, each followed by a delimiter, and then the pending bytes,
    are exactly the bytes received, in order;
  - and conversely.
- `DumpRawValues` (dump_raw_values.dfy) is the raw dump loop as a method.
  It is proved to print one record per delimiter, and each record reads
  back as its frame.
- `DisplayValues` (display_values.dfy) holds the key dispatch as a total
  function, proved equal to a lookup table, and the screen update of one
  frame. The display loop is a method, proved to stop at the first short
  0x0D frame, whose IndexError the tool does not catch.
- `SlmLog` (slm_log.dfy) is the logger's `update()` loop as a state
  machine: one `Step` per read, given the clock reading at that read. Its
  outputs are a sequence of events: InfluxDB writes, violation reports,
  fine CSV lines and compliance CSV lines. The lemmas state the loop's
  promises:
  - the acceptance rule, and that the deadlines move to reading plus
    interval;
  - the spacing of accepted samples;
  - the order of the events;
  - the 20-sample violation window;
  - that a short 0x0D frame ends the run;
  - that a measurement is never accepted twice.
- `NoiseLogger` (logger.dfy) is the loop as the program runs it. A
  `Logger` object holds the loop's variables as fields. `Read` handles one
  `ser.read(1)`, `CheckSample` runs the sample check after a delimiter,
  `TrackPeak` runs the tracker, and `Update` runs the loop. Each method is
  proved to follow `SlmLog` exactly and to keep the invariant `Valid`:
  - the buffer holds no delimiter;
  - the tracker is idle, or has counted 1..19 samples and holds a peak
    above the threshold.

Levels are integer tenths of a dB. The source compares a float
`hundreds*100 + tens*10 + ones + tenths/10` with the integer
`maximum_noise_level`, and with an earlier such float. For these values
those comparisons agree with the integer comparisons the model makes:
`tenths > 10 * maximum_noise_level`, and `tenths > maxTenths`.

The clock is milliseconds since UTC midnight, passed in with each read. It
need not increase, and it restarts at midnight. The deadlines are
never brought back into the day. `SlmLog.MidnightStall` proves what
follows: once an accepted sample falls within `sample_interval` of the end
of a day, the fine deadline is at or past 86 400 000 ms. From then on, no
frame read on a same-day clock is ever accepted again.

`update()` has no rolling-median detector, no notification queue and no
serial reconnect loop. The queue drain in `send_pushover.py` is not part of
this model.

## Model

| member | source | states |
|---|---|---|
| Protocol.HighNibble | src/app/slm-log.py:82-83 | the high nibble of a byte lies in 0..15 |
| Protocol.LowNibble | src/app/slm-log.py:86-87 | the low nibble of a byte lies in 0..15 |
| Protocol.NibblesAreMasks | src/app/slm-log.py:82-87 | on every octet the nibbles are exactly `(byte & 0xF0) >> 4` and `byte & 0x0F` |
| Protocol.NibbleSplit | src/app/slm-log.py:82-87 | both nibbles lie in 0..15 and `byte == 16*high + low` |
| Protocol.FromNibbles | src/app/slm-log.py:82-87 | the inverse of the nibble helpers: the byte built from `hi` and `lo` has exactly those nibbles |
| Protocol.NoiseTenths | src/app/slm-log.py:153-157 | the BCD level in tenths (`1000*hi(b1)+100*lo(b1)+10*hi(b2)+lo(b2)`) lies in 0..16665 for any payload bytes |
| Protocol.BcdRange | src/app/slm-log.py:153-157 | when all four nibbles are decimal digits, the level lies in 0..9999 (0.0 to 999.9 dB) |
| Protocol.BcdEncode | src/app/slm-log.py:153-157 | every level 0..9999 has a payload whose four nibbles are decimal digits |
| Protocol.BcdDecodeEncode | src/app/slm-log.py:153-157 | decoding the encoded payload of a level gives the level back |
| Protocol.BcdEncodeDecode | src/app/slm-log.py:153-157 | encoding the level of a BCD payload gives the payload back |
| Protocol.BcdInjective | src/app/slm-log.py:153-157 | distinct BCD payloads carry distinct levels |
| Protocol.DecodeNoise | src/app/slm-log.py:151-157 | a 0x0D frame decodes iff it has at least 3 bytes; otherwise IndexError at the first missing index (`msg[1]` or `msg[2]`) |
| Protocol.DecodeNoiseIgnoresTail | src/app/slm-log.py:153-157 | bytes after `msg[2]` do not change the decoded level |
| Protocol.DecodeNoiseOfEncoded | src/app/slm-log.py:151-157 | a 0x0D frame carrying the encoded payload of a level, with any tail, decodes to that level |
| Protocol.HexDigit | src/test/dump-raw-values.py:16 | the digit written for 0..15 is a lowercase hex digit whose value is that number |
| Protocol.Hex2 | src/test/dump-raw-values.py:16 | `f"{b:02x}"` is two lowercase hex digits |
| Protocol.Hex2RoundTrip | src/test/dump-raw-values.py:16 | the two digits read back as the byte |
| Protocol.Hex | src/test/display-values-on-screen.py:69 | `msg.hex()` has two lowercase hex digits per byte |
| Protocol.ParseHex | src/test/display-values-on-screen.py:69 | reading hex pairs back gives one byte per pair |
| Protocol.HexRoundTrip | src/test/display-values-on-screen.py:69 | `msg.hex()` loses nothing: parsing it gives the frame back |
| Deframer.Feed | src/app/slm-log.py:141-174 | one `ser.read(1)`: a timeout changes nothing, 0xA5 completes the buffered frame and empties the buffer, any other byte is appended; its contract is stated by DeframeShape, DeframePlainBytes, DeframeOneFrame and DeframeIgnoresTimeouts |
| Deframer.DeframeFrom | src/test/dump-raw-values.py:8-25 | the read loop over a sequence of reads, from a given buffer; DeframeFromAppend and DeframeFramesGrow state how it composes |
| Deframer.Deframe | src/test/dump-raw-values.py:7-25 | the frames and pending buffer after the reads, from an empty buffer; DeframeShape and DeframeJoined state what they are |
| Deframer.DeframeShape | src/app/slm-log.py:139-174 | frames and the pending buffer hold no 0xA5; one frame per 0xA5 received; the frames, each followed by 0xA5, then the pending bytes, are exactly the bytes received, in arrival order |
| Deframer.DeframeJoined | src/test/dump-raw-values.py:7-25 | conversely, reading delimiter-free frames, each followed by 0xA5, then a delimiter-free tail, gives back exactly those frames, with the tail pending |
| Deframer.DeframeFromAppend | src/test/dump-raw-values.py:8-25 | reading `x` then `y` is reading `x + y` |
| Deframer.DeframePlainBytes | src/test/dump-raw-values.py:23-25 | bytes other than 0xA5 are appended to the buffer in order and complete no frame |
| Deframer.DeframeOneFrame | src/test/dump-raw-values.py:12-25 | a delimiter completes exactly the buffered frame and empties the buffer |
| Deframer.DeframeIgnoresTimeouts | src/test/dump-raw-values.py:9-10 | a read that timed out changes nothing: only the bytes received decide the frames and buffer |
| Deframer.NoDelimiterNoFrame | src/test/dump-raw-values.py:12-22 | without a 0xA5 no frame is completed |
| Deframer.DeframeFramesGrow | src/test/dump-raw-values.py:8-25 | completed frames are never changed by later reads |
| Deframer.DeframePrefix | src/test/dump-raw-values.py:8-25 | the frames of a prefix of the reads are a prefix of the frames of all of them |
| DumpRawValues.Record | src/test/dump-raw-values.py:14-19 | the text printed at a delimiter: "Message buffer is empty." for an empty frame, else the spaced hex and a newline; RecordRoundTrip states that it determines the frame |
| DumpRawValues.SpacedHex | src/test/dump-raw-values.py:15-16 | three characters per byte: two lowercase hex digits, then a space |
| DumpRawValues.ParseSpacedHex | src/test/dump-raw-values.py:15-16 | reading the spaced hex back gives one byte per group |
| DumpRawValues.SpacedHexRoundTrip | src/test/dump-raw-values.py:15-16 | the spaced hex reads back as the frame |
| DumpRawValues.RecordRoundTrip | src/test/dump-raw-values.py:14-19 | each record is either "Message buffer is empty." or a well-formed hex line, and reads back as its frame, so no frame's record is mistaken for another's |
| DumpRawValues.ReadStreamWithDelimiter | src/test/dump-raw-values.py:4-25 | the loop prints exactly the records of the deframed frames, one per 0xA5 received |
| DisplayValues.ClassifyKey | src/test/display-values-on-screen.py:57-174 | the `elif` chain on a nonzero key, in source order; ClassifyKeyIsLookup, NamedKeysAreLookedUp, NoiseBranchIsNoiseKey and CatchAllExactlyUnnamedKeys state its contract |
| DisplayValues.Show | src/test/display-values-on-screen.py:53-176 | what one delimiter puts on the screen, or the IndexError of a short 0x0D frame; ShowOutcome and ShownHexRoundTrip state its contract |
| DisplayValues.ShowAll | src/test/display-values-on-screen.py:47-184 | the updates drawn for a sequence of frames, stopping at the first IndexError; ShowAllStops and ShowAllCount state its contract |
| DisplayValues.ClassifyKeyIsLookup | src/test/display-values-on-screen.py:57-174 | each nonzero key takes the branch its table entry names, and every unnamed key takes the catch-all |
| DisplayValues.NamedKeysAreLookedUp | src/test/display-values-on-screen.py:58-165 | every key the chain names takes the branch of its table entry |
| DisplayValues.NoiseBranchIsNoiseKey | src/test/display-values-on-screen.py:58-69 | the noise-level branch is taken iff the key is 0x0D |
| DisplayValues.CatchAllExactlyUnnamedKeys | src/test/display-values-on-screen.py:166-174 | the catch-all "Unknown message" branch is taken iff the key is not one the chain names |
| DisplayValues.ShowOutcome | src/test/display-values-on-screen.py:53-176 | an empty buffer iff "Message buffer is empty."; key 0 iff no field is updated; an error iff the frame is 0x0D and shorter than 3 bytes; a 0x0D frame shows the logger's level and its hex |
| DisplayValues.ShownHexRoundTrip | src/test/display-values-on-screen.py:69-174 | every hex an update shows is the frame's `msg.hex()` and reads back as the frame |
| DisplayValues.ShowAllStops | src/test/display-values-on-screen.py:46-188 | after the uncaught IndexError nothing more is drawn |
| DisplayValues.ShowAllCount | src/test/display-values-on-screen.py:47-184 | with no error, one screen update per frame |
| DisplayValues.DisplayLoop | src/test/display-values-on-screen.py:47-184 | the loop draws exactly the updates of the deframed frames, up to the first IndexError; with no error, one per 0xA5 |
| SlmLog.Track | src/app/slm-log.py:181-202 | the peak tracker on one accepted sample; TrackKeepsOk, WindowOpen and PeakWindow state its contract |
| SlmLog.TrackAll | src/app/slm-log.py:181-202 | the tracker over the accepted samples, with the peaks it reports; TrackAllKeepsOk, WindowOpen and PeakWindow state its contract |
| SlmLog.Init | src/app/slm-log.py:115-135 | the loop's variables on entering `update()`; LoggerSpacing, LoggerEvents and LoggerFraming state what follows from it |
| SlmLog.Decode | src/app/slm-log.py:146-170 | a completed frame: empty keeps all, a nonzero key sets `key`, a 0x0D frame is decoded and stamped or raises IndexError; NonNoiseFrameKeepsMeasurement and ShortNoiseFrameEndsRun state its contract |
| SlmLog.Block | src/app/slm-log.py:176-215 | the events of one accepted sample, in emission order; BlockCollects and BlockWellOrdered state its contract |
| SlmLog.Schedule | src/app/slm-log.py:176-215 | the sample check after a delimiter; OnFrameAcceptance and FrameStepEffect state its contract |
| SlmLog.OnFrame | src/app/slm-log.py:146-215 | decode a frame, then the sample check unless the decode raised; OnFrameAcceptance, AcceptedMeasurementNotDue and OnFrameIgnoresBuffer state its contract |
| SlmLog.Step | src/app/slm-log.py:141-219 | one `ser.read(1)` of the loop; ShortNoiseFrameEndsRun, RunFromHalted and Logger.Read state its contract |
| SlmLog.Run | src/app/slm-log.py:137-219 | the loop over a sequence of reads; RunIsFrameRun, RunStaysHalted and the Logger* lemmas state its contract |
| SlmLog.TimedDeframe | src/app/slm-log.py:139-174 | the logger's framing, each frame stamped with its delimiter's clock reading; TimedDeframeIsDeframe states its contract |
| SlmLog.RunFrames | src/app/slm-log.py:146-219 | the loop over completed frames; FramesFineSpacing, FramesComplianceSpacing, FramesTracking, FramesWellOrdered, NoDoubleAcceptance and MidnightStall state its contract |
| SlmLog.TrackKeepsOk | src/app/slm-log.py:181-202 | the tracker stays idle or mid-window (1..19 counted, peak above threshold); a reported peak is above the threshold and at least the sample and the peak so far; a sample at or below the threshold opens no window |
| SlmLog.SeqMax | src/app/slm-log.py:186-191 | the maximum of the window's samples is one of them and at least every one of them |
| SlmLog.WindowOpen | src/app/slm-log.py:181-197 | a window opened by a sample above the threshold counts its first 19 samples, whatever their level, keeps their maximum and reports nothing |
| SlmLog.PeakWindow | src/app/slm-log.py:181-202 | 20 accepted samples from idle, the first above the threshold, give exactly one report: their maximum, which is above the threshold and at least each sample; the tracker is idle again |
| SlmLog.TrackAllKeepsOk | src/app/slm-log.py:181-202 | over any samples the tracker stays idle or mid-window, and every reported peak is above `maximum_noise_level` |
| SlmLog.RunStaysHalted | src/app/slm-log.py:238-243 | once IndexError has ended the run, later reads change nothing and emit nothing |
| SlmLog.RunFromHalted | src/app/slm-log.py:238-243 | after an exception has left `update()`, no read changes anything or emits anything |
| SlmLog.ShortNoiseFrameEndsRun | src/app/slm-log.py:151-156 | the delimiter of a 0x0D frame shorter than 3 bytes sets `key`, raises, emits nothing, and ends the run |
| SlmLog.NonNoiseFrameKeepsMeasurement | src/app/slm-log.py:146-150 | an empty frame or a non-0x0D frame decodes nothing and keeps the timestamp and level; it sets `key` to the frame's key, and an empty frame keeps the old key |
| SlmLog.OnFrameAcceptance | src/app/slm-log.py:176-215 | a frame gives a fine sample iff `key == 0x0D` and the reading is at or past `next_sample_time`; a sample emits the InfluxDB write, any violation, the fine line and, iff its deadline is reached, the compliance line; the deadline becomes reading plus interval; otherwise the deadlines and the tracker are unchanged |
| SlmLog.AcceptedMeasurementNotDue | src/app/slm-log.py:176-177 | with a positive interval, an accepted reading lies before the new deadline |
| SlmLog.TimedDeframeIsDeframe | src/app/slm-log.py:139-174 | the logger frames its reads exactly as the shared deframer does |
| SlmLog.OnFrameIgnoresBuffer | src/app/slm-log.py:139-171 | processing a frame neither reads nor changes the (already reset) buffer |
| SlmLog.RunIsFrameRun | src/app/slm-log.py:137-219 | the read loop gives the same events and state as running its completed frames, and while alive its buffer is the deframer's pending bytes |
| SlmLog.CollectAppend | src/app/slm-log.py:176-215 | what a selector picks from `a + b` is what it picks from `a`, then from `b` |
| SlmLog.BlockCollect | src/app/slm-log.py:176-215 | a selector picks from one sample's events in their emission order |
| SlmLog.BlockCollects | src/app/slm-log.py:176-215 | one accepted sample gives exactly one InfluxDB write and one fine line with its reading and level, a compliance line iff its deadline is reached, and a violation iff the tracker reports |
| SlmLog.FrameStepEffect | src/app/slm-log.py:176-215 | a frame without a sample leaves the deadlines and tracker alone; a sample at or past the fine deadline moves it to reading plus interval, moves the compliance deadline iff reached, and feeds the tracker |
| SlmLog.SpacedAppend | src/app/slm-log.py:176-177 | a reading at least one interval after the last keeps the readings spaced |
| SlmLog.FramesFineSpacing | src/app/slm-log.py:176-177 | over any frames, whatever the order of the clock readings, fine samples come at or after the starting deadline and each at least `sample_interval` after the previous one; the deadline left is the last sample plus the interval |
| SlmLog.FramesComplianceSpacing | src/app/slm-log.py:210-215 | the same for compliance samples with `next_compliance_sample_time` and `compliance_sample_interval` |
| SlmLog.FramesTracking | src/app/slm-log.py:181-202 | the tracker sees exactly the run's fine samples: the final tracker and the violations are those of `TrackAll` over the accepted levels |
| SlmLog.BlockWellOrdered | src/app/slm-log.py:176-215 | the events of one sample are in source order: InfluxDB write first, fine line after it (directly or after a violation), compliance line right after the fine line |
| SlmLog.WellOrderedAppend | src/app/slm-log.py:176-215 | well-ordered event runs concatenate into a well-ordered run |
| SlmLog.FramesWellOrdered | src/app/slm-log.py:176-215 | over any frames every InfluxDB write is followed by its sample's fine line, and every compliance line directly follows the fine line of the same sample, so compliance samples are fine samples |
| SlmLog.NoDoubleAcceptance | src/app/slm-log.py:146-177 | with a positive interval, once the last measurement is not due, frames that decode no new level (empty or other keys) produce no sample |
| SlmLog.MidnightStall | src/app/slm-log.py:159-177 | once the fine deadline is at or past midnight, no frame read on a same-day clock is accepted, and the deadline never moves |
| SlmLog.LoggerSpacing | src/app/slm-log.py:128-177 | from the start of `update()`, the first fine sample is at least `sample_interval` after the start reading and each later one at least that after the previous; likewise for compliance samples |
| SlmLog.LoggerEvents | src/app/slm-log.py:176-219 | from the start of `update()`, the events are well ordered, the tracker stays idle or mid-window, and the violations are exactly the peaks of `TrackAll` over the fine levels, each above `maximum_noise_level` |
| SlmLog.LoggerFraming | src/app/slm-log.py:137-174 | from the start of `update()`, the frames processed are the deframer's frames, the live buffer is its pending bytes, and the buffer never holds 0xA5 |
| SlmLog.LoggerBufferFree | src/app/slm-log.py:171-174 | 0xA5 never enters `message_buffer` |
| NoiseLogger.Logger.constructor | src/app/slm-log.py:115-135 | the loop's variables on entry: empty buffer, key 0, both deadlines at start reading plus interval, tracker idle |
| NoiseLogger.Logger.TrackPeak | src/app/slm-log.py:181-202 | the tracker fields become `Track`'s tracker and its report is appended, nothing else changes, and the tracker invariant is kept |
| NoiseLogger.Logger.CheckSample | src/app/slm-log.py:176-219 | the fields and emitted events follow `Schedule` on the loop's state, keeping `Valid` |
| NoiseLogger.Logger.Read | src/app/slm-log.py:141-174 | one read moves the fields and the emitted events exactly as `Step`, keeping `Valid` |
| NoiseLogger.Logger.Update | src/app/slm-log.py:137-219 | the loop over the reads moves the fields and events exactly as `Run`, stopping when IndexError ends it, keeping `Valid` |

## Left out

- InfluxDB, Pushover and the CSV files are not modelled as I/O. What the
  loop hands to them becomes an `Event`, in emission order. The
  `logger.info` lines (`src/app/slm-log.py:111`, `:178`, `:199`) become no
  event.
  The messages' text, the CSV file names and the `current_date` fixed at
  start-up are not modelled either.
- `send_pushover.py` is not part of this model. It is a file-polling queue
  drain with network sends.
- Config parsing, client set-up, the InfluxDB health check and `main`'s
  start-up messages are not modelled. The three [Monitoring] settings the
  loop reads are the `Config` datatype.
- `main`'s handler, which writes the exception and traceback to `error.log`,
  is not modelled. Only its effect is kept: the run ends (`halted`).
- Failing foreign calls are not modelled: the model assumes every call
  into code it cannot see returns normally. In the source, the following
  raise out of `update()` and end the run through `main`'s handler:
  - a failing `po_api.send` in `send_pushover_message`, which is not caught
    there, unlike the InfluxDB write;
  - a failing `open` of either CSV file;
  - a failing `ser.read(1)`.

  The model halts only on the IndexError of a short 0x0D frame.
- The display tool's curses calls can raise too: the catch-all line
  `Unknown message: <hex>` is written on the window's last row with
  scrolling off, so a long enough frame can overflow it. `curses.error` is
  not caught there. `DisplayLoop` stops only at IndexError.
- Floating point, `round(dB, 1)` and `%.1f` formatting are replaced by
  integer tenths of a dB, as explained above.
- `datetime.now`, time zones and timestamp strings are not modelled. The
  clock reading in ms since UTC midnight is an input with each read. The
  model keeps that reading as the sample's time, where the source keeps
  the timestamp strings and the InfluxDB time.
- Opening and closing the serial port, its 1 s timeout and
  `KeyboardInterrupt` are not modelled. `while True` is modelled over a
  finite sequence of reads, and a timeout is a `None` read.
- The curses screen is not modelled: rows, columns, clearing, `refresh`
  and the rendering of the float level. An update records what is shown,
  as a value.
- `max_dB = None` after a report is represented as 0. It is only read
  while a window is open, and then it holds the window's maximum.
- NoiseLogger.Logger.Read: requires that the run has not ended, since no
  read happens after IndexError has left `update()`. `Update` checks this
  before every read.

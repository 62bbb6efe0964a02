/**
 * The logger's `update()` as the program runs it: the loop's variables are
 * the fields of a `Logger`, each `ser.read(1)` is one call of `Read`, and
 * the sample check that follows every delimiter is `CheckSample`. What the
 * loop hands to InfluxDB, Pushover and the CSV files is appended to
 * `events`. Every method is proved against the state machine of module
 * SlmLog, whose lemmas say what the loop promises.
 */
module NoiseLogger {
  import opened Protocol
  import opened SlmLog

  class Logger {
    /** The [Monitoring] settings. */
    const cfg: Config

    var messageBuffer: seq<byte>
    var key: byte
    /** `milliseconds_since_start_of_day` of the last 0x0D frame. */
    var lastMs: int
    /** `dB` of the last 0x0D frame, in tenths of a dB. */
    var level: int
    var nextSampleTime: int
    var nextComplianceSampleTime: int
    var trackingPeak: bool
    var sampleCount: int
    /** `max_dB` in tenths; `None` is 0. */
    var maxLevel: int
    /** IndexError has left `update()`. */
    var halted: bool
    /** Everything handed to InfluxDB, Pushover and the CSV files, in order. */
    var events: seq<Event>

    /** The loop's variables as a state of the machine. */
    function Snapshot(): State
      reads this
    {
      State(messageBuffer, key, lastMs, level, nextSampleTime, nextComplianceSampleTime,
            Tracker(trackingPeak, sampleCount, maxLevel), halted)
    }

    /** The invariant between reads: the buffer holds no delimiter and the tracker is idle or mid-window. */
    ghost predicate Valid()
      reads this
    {
      Delimiter !in messageBuffer && TrackerOk(cfg, Snapshot().tracker)
    }

    /** Entering `update()` with the clock reading `startMs`. */
    constructor(cfg: Config, startMs: int)
      ensures this.cfg == cfg
      ensures Snapshot() == Init(cfg, startMs) && events == []
      ensures Valid()
    {
      this.cfg := cfg;
      messageBuffer := [];
      key := 0;
      lastMs := startMs;
      level := 0;
      nextSampleTime := startMs + cfg.sampleInterval;
      nextComplianceSampleTime := startMs + cfg.complianceInterval;
      trackingPeak := false;
      sampleCount := 0;
      maxLevel := 0;
      halted := false;
      events := [];
    }

    /**
     * The peak tracker on the sample just accepted: a level above
     * `maximum_noise_level` opens a window, every sample of an open window
     * is counted and raises its maximum, and the twentieth reports the
     * maximum as a violation and closes the window.
     */
    method TrackPeak()
      requires TrackerOk(cfg, Snapshot().tracker)
      modifies this
      ensures var (tracker, peak) := Track(cfg, old(Snapshot()).tracker, level);
        && Snapshot() == old(Snapshot()).(tracker := tracker)
        && events == old(events) + (if peak.Some? then [Violation(peak.value)] else [])
      ensures TrackerOk(cfg, Snapshot().tracker)
    {
      TrackKeepsOk(cfg, Snapshot().tracker, level);
      if level > Threshold(cfg) || trackingPeak {
        if !trackingPeak {
          trackingPeak := true;
          sampleCount := 0;
          maxLevel := level;
        } else if level > maxLevel {
          maxLevel := level;
        }
        sampleCount := sampleCount + 1;
        if sampleCount >= WindowLength {
          events := events + [Violation(maxLevel)];
          trackingPeak := false;
          maxLevel := 0;
          sampleCount := 0;
        }
      }
    }

    /**
     * The check after a delimiter: a due 0x0D level is written to InfluxDB,
     * fed to the peak tracker (which may report a violation), written to
     * the fine CSV and, when the compliance deadline is reached too, to the
     * compliance CSV.
     */
    method CheckSample()
      requires Valid()
      modifies this
      ensures Snapshot() == Schedule(cfg, old(Snapshot())).0
      ensures events == old(events) + Schedule(cfg, old(Snapshot())).1
      ensures Valid()
    {
      if key == NoiseKey && lastMs >= nextSampleTime {
        nextSampleTime := lastMs + cfg.sampleInterval;
        events := events + [InfluxWrite(level, lastMs)];
        TrackPeak();
        events := events + [FineCsv(level, lastMs)];
        if lastMs >= nextComplianceSampleTime {
          nextComplianceSampleTime := lastMs + cfg.complianceInterval;
          events := events + [ComplianceCsv(level, lastMs)];
        }
      }
    }

    /**
     * One `ser.read(1)` at clock reading `tick.nowMs`: a timeout changes
     * nothing, a byte other than the delimiter is buffered, and the
     * delimiter ends the frame: a nonempty frame sets `key`, a 0x0D frame
     * is decoded (or raises IndexError when shorter than three bytes), and
     * the sample check runs.
     */
    method Read(tick: Tick)
      requires Valid() && !halted
      modifies this
      ensures Snapshot() == Step(cfg, old(Snapshot()), tick).0
      ensures events == old(events) + Step(cfg, old(Snapshot()), tick).1
      ensures Valid()
    {
      if tick.read.Some? {
        var b := tick.read.value;
        if b == Delimiter {
          var msg := messageBuffer;
          messageBuffer := [];
          if msg != [] {
            key := msg[0];
            if key != 0 {
              if key == NoiseKey {
                if |msg| < 3 {
                  halted := true;
                  return;
                }
                var hundreds := HighNibble(msg[1]);
                var tens := LowNibble(msg[1]);
                var ones := HighNibble(msg[2]);
                var tenths := LowNibble(msg[2]);
                level := 1000 * hundreds + 100 * tens + 10 * ones + tenths;
                lastMs := tick.nowMs;
              }
            }
          }
          CheckSample();
        } else {
          messageBuffer := messageBuffer + [b];
        }
      }
    }

    /**
     * `update()` over the reads `ticks`: one `Read` per tick until the
     * reads run out or IndexError leaves the loop.
     */
    method Update(ticks: seq<Tick>)
      requires Valid()
      modifies this
      ensures Snapshot() == Run(cfg, old(Snapshot()), ticks).0
      ensures events == old(events) + Run(cfg, old(Snapshot()), ticks).1
      ensures Valid()
    {
      ghost var start := Snapshot();
      ghost var before := events;
      var i := 0;
      while i < |ticks| && !halted
        invariant 0 <= i <= |ticks|
        invariant Valid()
        invariant Snapshot() == Run(cfg, start, ticks[..i]).0
        invariant events == before + Run(cfg, start, ticks[..i]).1
      {
        Read(ticks[i]);
        assert ticks[..i + 1][..i] == ticks[..i];
        RunSnoc(cfg, start, ticks[..i + 1]);
        i := i + 1;
      }
      if i < |ticks| {
        RunStaysHalted(cfg, start, ticks[..i], ticks[i..]);
        assert ticks[..i] + ticks[i..] == ticks;
      } else {
        assert ticks[..i] == ticks;
      }
    }
  }
}

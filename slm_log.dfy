/**
 * The logger's `update()` loop as a state machine: the framing of
 * `message_buffer`, the decoding of 0x0D frames, the fine and compliance
 * sample deadlines, and the 20-sample peak tracker that reports a
 * violation.
 *
 * The loop's variables are the fields of `State`; one `ser.read(1)` is one
 * `Step`, given the clock reading (milliseconds since UTC midnight) at that
 * moment. What the loop hands to InfluxDB, Pushover and the CSV files is a
 * sequence of `Event`s. The class in module NoiseLogger runs this machine
 * imperatively; the lemmas here state what the machine promises.
 *
 * Levels are integer tenths of a dB: `dB > maximum_noise_level` is
 * `tenths > 10 * maximum_noise_level`.
 */
module SlmLog {
  import opened Protocol
  import opened Deframer

  /** The [Monitoring] settings the loop reads. */
  datatype Config = Config(sampleInterval: int, complianceInterval: int, maximumNoiseLevel: int)

  /** `maximum_noise_level`, in tenths of a dB. */
  function Threshold(cfg: Config): int
  {
    10 * cfg.maximumNoiseLevel
  }

  /** One `ser.read(1)` and the clock reading, in ms since UTC midnight, at that moment. */
  datatype Tick = Tick(read: Option<byte>, nowMs: int)

  /** What the loop hands to its collaborators, in order. */
  datatype Event =
    | InfluxWrite(tenths: int, ms: int)   // write_data_to_influxdb
    | Violation(peakTenths: int)          // the "VIOLATION" Pushover message and log line
    | FineCsv(tenths: int, ms: int)       // a line of <date>-noise.csv
    | ComplianceCsv(tenths: int, ms: int) // a line of <date>-noise-compliance.csv

  // ---------------------------------------------------------------------
  // Peak tracker
  // ---------------------------------------------------------------------

  /** Accepted samples in one peak window. */
  const WindowLength: int := 20

  /** `tracking_peak`, `sample_count` and `max_dB`. */
  datatype Tracker = Tracker(tracking: bool, sampleCount: int, maxTenths: int)

  /** Not tracking; `max_dB = None` is represented by 0. */
  const Idle: Tracker := Tracker(false, 0, 0)

  /** The peak tracker on one accepted sample: the new tracker and the peak it reports, if any. */
  function Track(cfg: Config, t: Tracker, tenths: int): (Tracker, Option<int>)
  {
    if tenths > Threshold(cfg) || t.tracking then
      var window :=
        if !t.tracking then Tracker(true, 0, tenths)
        else if tenths > t.maxTenths then t.(maxTenths := tenths)
        else t;
      var counted := window.(sampleCount := window.sampleCount + 1);
      if counted.sampleCount >= WindowLength then (Idle, Some(counted.maxTenths))
      else (counted, None)
    else (t, None)
  }

  /** Between samples: idle, or 1..19 samples counted with a peak above the threshold. */
  ghost predicate TrackerOk(cfg: Config, t: Tracker)
  {
    if t.tracking then 1 <= t.sampleCount < WindowLength && t.maxTenths > Threshold(cfg)
    else t == Idle
  }

  /**
   * Tracking keeps `TrackerOk`; a reported peak lies above the threshold
   * and is at least the sample and the peak so far; a sample at or below
   * the threshold does not start a window.
   */
  lemma TrackKeepsOk(cfg: Config, t: Tracker, tenths: int)
    requires TrackerOk(cfg, t)
    ensures TrackerOk(cfg, Track(cfg, t, tenths).0)
    ensures Track(cfg, t, tenths).1.Some? ==>
              var peak := Track(cfg, t, tenths).1.value;
              peak > Threshold(cfg) && peak >= tenths && (t.tracking ==> peak >= t.maxTenths)
    ensures !t.tracking && tenths <= Threshold(cfg) ==> Track(cfg, t, tenths) == (Idle, None)
  {
  }

  /** The tracker over accepted samples, oldest first: the final tracker and the peaks reported. */
  function TrackAll(cfg: Config, t: Tracker, samples: seq<int>): (Tracker, seq<int>)
    decreases |samples|
  {
    if samples == [] then (t, [])
    else
      var (t', peaks) := TrackAll(cfg, t, samples[..|samples| - 1]);
      var (t'', peak) := Track(cfg, t', samples[|samples| - 1]);
      (t'', peaks + if peak.Some? then [peak.value] else [])
  }

  /** The largest sample. */
  function SeqMax(s: seq<int>): (m: int)
    requires s != []
    ensures m in s
    ensures forall i :: 0 <= i < |s| ==> s[i] <= m
    decreases |s|
  {
    if |s| == 1 then s[0]
    else
      var m' := SeqMax(s[..|s| - 1]);
      assert forall i :: 0 <= i < |s| - 1 ==> s[i] == s[..|s| - 1][i];
      if s[|s| - 1] > m' then s[|s| - 1] else m'
  }

  /**
   * A window opened by a sample above the threshold stays open for its
   * first 19 samples, whatever their level, counting them and keeping
   * their maximum, and reports nothing.
   */
  lemma {:induction false} WindowOpen(cfg: Config, samples: seq<int>)
    requires 1 <= |samples| < WindowLength && samples[0] > Threshold(cfg)
    ensures TrackAll(cfg, Idle, samples) == (Tracker(true, |samples|, SeqMax(samples)), [])
    decreases |samples|
  {
    if |samples| > 1 {
      var init := samples[..|samples| - 1];
      var last := samples[|samples| - 1];
      WindowOpen(cfg, init);
      assert init[0] == samples[0];
      var peak := if last > SeqMax(init) then last else SeqMax(init);
      assert SeqMax(samples) == peak;
      assert Track(cfg, Tracker(true, |init|, SeqMax(init)), last) == (Tracker(true, |samples|, peak), None);
      assert TrackAll(cfg, Idle, samples) == (Tracker(true, |samples|, peak), []);
    } else {
      assert samples[..0] == [];
      assert TrackAll(cfg, Idle, samples[..0]) == (Idle, []);
      assert Track(cfg, Idle, samples[0]) == (Tracker(true, 1, samples[0]), None);
      assert samples[|samples| - 1] == samples[0];
      var none: seq<int> := [];
      assert none + [] == [];
      assert TrackAll(cfg, Idle, samples) == (Tracker(true, 1, samples[0]), []);
      assert SeqMax(samples) == samples[0];
    }
  }

  /**
   * The violation rule: from idle, a sample above the threshold and the 19
   * accepted samples after it (above the threshold or not) give exactly
   * one report, the maximum of the 20, which lies above the threshold and
   * at or above every sample of the window; the tracker is then idle again.
   */
  lemma PeakWindow(cfg: Config, samples: seq<int>)
    requires |samples| == WindowLength && samples[0] > Threshold(cfg)
    ensures TrackAll(cfg, Idle, samples) == (Idle, [SeqMax(samples)])
    ensures SeqMax(samples) > Threshold(cfg)
    ensures forall i :: 0 <= i < |samples| ==> samples[i] <= SeqMax(samples)
  {
    var init := samples[..|samples| - 1];
    var last := samples[|samples| - 1];
    WindowOpen(cfg, init);
    assert init[0] == samples[0];
    assert SeqMax(init) >= samples[0];
    var peak := if last > SeqMax(init) then last else SeqMax(init);
    assert SeqMax(samples) == peak;
    assert Track(cfg, Tracker(true, |init|, SeqMax(init)), last) == (Idle, Some(peak));
    var none: seq<int> := [];
    assert none + [peak] == [peak];
    assert TrackAll(cfg, Idle, samples) == (Idle, [peak]);
  }

  /** `TrackerOk` holds after any run of samples from a good tracker. */
  lemma {:induction false} TrackAllKeepsOk(cfg: Config, t: Tracker, samples: seq<int>)
    requires TrackerOk(cfg, t)
    ensures TrackerOk(cfg, TrackAll(cfg, t, samples).0)
    ensures forall i :: 0 <= i < |TrackAll(cfg, t, samples).1| ==> TrackAll(cfg, t, samples).1[i] > Threshold(cfg)
    decreases |samples|
  {
    if samples != [] {
      var init := samples[..|samples| - 1];
      TrackAllKeepsOk(cfg, t, init);
      TrackKeepsOk(cfg, TrackAll(cfg, t, init).0, samples[|samples| - 1]);
    }
  }

  // ---------------------------------------------------------------------
  // The loop's state, one frame and one read
  // ---------------------------------------------------------------------

  /**
   * The variables of `update()`: `message_buffer`, `key`, the clock reading
   * and level of the last 0x0D frame, the two deadlines, the peak tracker,
   * and whether an exception has ended the run.
   */
  datatype State = State(
    buffer: seq<byte>,
    key: byte,
    lastMs: int,
    lastTenths: int,
    nextSample: int,
    nextCompliance: int,
    tracker: Tracker,
    halted: bool)

  /** The state on entering the loop, the clock reading `startMs`. */
  function Init(cfg: Config, startMs: int): State
  {
    State([], 0, startMs, 0, startMs + cfg.sampleInterval, startMs + cfg.complianceInterval, Idle, false)
  }

  /**
   * A completed frame `msg`, read at `nowMs`: an empty frame changes
   * nothing; any other sets `key`; a 0x0D frame is decoded and stamped with
   * the clock, or raises IndexError when shorter than three bytes, which
   * leaves `update()` and ends the run.
   */
  function Decode(s: State, msg: seq<byte>, nowMs: int): State
  {
    if msg == [] then s
    else if msg[0] != NoiseKey then s.(key := msg[0])
    else
      match DecodeNoise(msg)
      case Err(_) => s.(key := NoiseKey, halted := true)
      case Ok(tenths) => s.(key := NoiseKey, lastMs := nowMs, lastTenths := tenths)
  }

  /** The events of one accepted fine sample, in the order the loop emits them. */
  function Block(tenths: int, ms: int, peak: Option<int>, compliance: bool): seq<Event>
  {
    [InfluxWrite(tenths, ms)]
    + (if peak.Some? then [Violation(peak.value)] else [])
    + [FineCsv(tenths, ms)]
    + (if compliance then [ComplianceCsv(tenths, ms)] else [])
  }

  /**
   * The check that runs after every delimiter: the last decoded level is a
   * fine sample when the key is 0x0D and its clock reading has reached the
   * fine deadline; it is then also a compliance sample when that reading
   * has reached the compliance deadline. Each deadline moves to the
   * reading plus its interval.
   */
  function Schedule(cfg: Config, s: State): (State, seq<Event>)
  {
    if s.key == NoiseKey && s.lastMs >= s.nextSample then
      var ms := s.lastMs;
      var tenths := s.lastTenths;
      var (tracker, peak) := Track(cfg, s.tracker, tenths);
      var compliance := ms >= s.nextCompliance;
      (s.(nextSample := ms + cfg.sampleInterval,
          tracker := tracker,
          nextCompliance := if compliance then ms + cfg.complianceInterval else s.nextCompliance),
       Block(tenths, ms, peak, compliance))
    else (s, [])
  }

  /** One completed frame: decode, then the sample check unless the decode raised. */
  function OnFrame(cfg: Config, s: State, msg: seq<byte>, nowMs: int): (State, seq<Event>)
  {
    var d := Decode(s, msg, nowMs);
    if d.halted then (d, []) else Schedule(cfg, d)
  }

  /**
   * One `ser.read(1)`: nothing after the run has ended; a timeout changes
   * nothing; the delimiter hands the buffer to `OnFrame` and empties it;
   * any other byte is appended.
   */
  function Step(cfg: Config, s: State, tick: Tick): (State, seq<Event>)
  {
    if s.halted then (s, [])
    else
      match tick.read
      case None => (s, [])
      case Some(b) =>
        if b == Delimiter then OnFrame(cfg, s.(buffer := []), s.buffer, tick.nowMs)
        else (s.(buffer := s.buffer + [b]), [])
  }

  /** The reads `ticks`, one after the other, from `s`: the final state and all events. */
  function Run(cfg: Config, s: State, ticks: seq<Tick>): (State, seq<Event>)
    decreases |ticks|
  {
    if ticks == [] then (s, [])
    else
      var (s', events) := Run(cfg, s, ticks[..|ticks| - 1]);
      var (s'', more) := Step(cfg, s', ticks[|ticks| - 1]);
      (s'', events + more)
  }

  /** A run of reads is the run of all but the last, then the last. */
  lemma RunSnoc(cfg: Config, s: State, ticks: seq<Tick>)
    requires ticks != []
    ensures var (a, events) := Run(cfg, s, ticks[..|ticks| - 1]);
      var (b, more) := Step(cfg, a, ticks[|ticks| - 1]);
      Run(cfg, s, ticks) == (b, events + more)
  {
  }

  /** Once IndexError has ended the run, later reads change nothing and emit nothing. */
  lemma {:induction false} RunStaysHalted(cfg: Config, s: State, x: seq<Tick>, y: seq<Tick>)
    requires Run(cfg, s, x).0.halted
    ensures Run(cfg, s, x + y) == Run(cfg, s, x)
    decreases |y|
  {
    if y == [] {
      assert x + y == x;
    } else {
      var y' := y[..|y| - 1];
      assert (x + y)[..|x + y| - 1] == x + y';
      RunStaysHalted(cfg, s, x, y');
      RunSnoc(cfg, s, x + y);
      var r := Run(cfg, s, x);
      assert r.1 + [] == r.1;
    }
  }

  /** Once IndexError has left `update()`, no read changes anything and nothing is emitted. */
  lemma {:induction false} RunFromHalted(cfg: Config, s: State, ticks: seq<Tick>)
    requires s.halted
    ensures Run(cfg, s, ticks) == (s, [])
    decreases |ticks|
  {
    if ticks != [] {
      RunFromHalted(cfg, s, ticks[..|ticks| - 1]);
      RunSnoc(cfg, s, ticks);
      var none: seq<Event> := [];
      assert none + [] == [];
    }
  }

  /**
   * A 0x0D frame shorter than three bytes ends the run: its delimiter sets
   * `key`, empties the buffer and raises, nothing is emitted, and no later
   * read changes anything.
   */
  lemma ShortNoiseFrameEndsRun(cfg: Config, s: State, tick: Tick)
    requires !s.halted && tick.read == Some(Delimiter)
    requires s.buffer != [] && s.buffer[0] == NoiseKey && |s.buffer| < 3
    ensures Step(cfg, s, tick) == (s.(buffer := [], key := NoiseKey, halted := true), [])
    ensures forall later :: Run(cfg, Step(cfg, s, tick).0, later) == (Step(cfg, s, tick).0, [])
  {
    forall later {
      RunFromHalted(cfg, Step(cfg, s, tick).0, later);
    }
  }

  // ---------------------------------------------------------------------
  // One frame
  // ---------------------------------------------------------------------

  /**
   * Frames that are empty or whose key is not 0x0D decode nothing: the
   * measurement and its clock reading stay, the deadlines stay, and the
   * key becomes the frame's key (an empty frame keeps the old one).
   */
  lemma NonNoiseFrameKeepsMeasurement(s: State, msg: seq<byte>, nowMs: int)
    requires msg == [] || msg[0] != NoiseKey
    ensures Decode(s, msg, nowMs) == s.(key := if msg == [] then s.key else msg[0])
  {
  }

  /**
   * A frame is accepted as a fine sample exactly when the check sees key
   * 0x0D with a reading at or past the deadline: either the frame is a
   * well-formed 0x0D frame read at or past the deadline, or the frame is
   * empty and the previous measurement is (still) due. An accepted sample
   * gives one block of events and moves the deadline to its reading plus
   * the interval; a rejected one changes no deadline and no tracker.
   */
  lemma OnFrameAcceptance(cfg: Config, s: State, msg: seq<byte>, nowMs: int)
    requires !s.halted
    ensures var (s', events) := OnFrame(cfg, s, msg, nowMs);
      && (events != [] <==>
            || (msg != [] && msg[0] == NoiseKey && |msg| >= 3 && nowMs >= s.nextSample)
            || (msg == [] && s.key == NoiseKey && s.lastMs >= s.nextSample))
      && (events != [] ==>
            && events == Block(s'.lastTenths, s'.lastMs, Track(cfg, s.tracker, s'.lastTenths).1, s'.lastMs >= s.nextCompliance)
            && s'.nextSample == s'.lastMs + cfg.sampleInterval
            && s'.lastMs >= s.nextSample)
      && (events == [] ==> s'.nextSample == s.nextSample && s'.nextCompliance == s.nextCompliance && s'.tracker == s.tracker)
  {
  }

  /**
   * With a positive interval, a measurement is accepted at most once: after
   * an acceptance the reading lies before the new deadline.
   */
  lemma AcceptedMeasurementNotDue(cfg: Config, s: State, msg: seq<byte>, nowMs: int)
    requires cfg.sampleInterval > 0
    requires OnFrame(cfg, s, msg, nowMs).1 != []
    ensures OnFrame(cfg, s, msg, nowMs).0.lastMs < OnFrame(cfg, s, msg, nowMs).0.nextSample
  {
  }

  // ---------------------------------------------------------------------
  // Frame-level runs
  // ---------------------------------------------------------------------

  /** A completed frame and the clock reading when its delimiter arrived. */
  datatype TimedFrame = TimedFrame(msg: seq<byte>, ms: int)

  function FrameStep(cfg: Config, s: State, f: TimedFrame): (State, seq<Event>)
  {
    if s.halted then (s, []) else OnFrame(cfg, s, f.msg, f.ms)
  }

  /** The completed frames `frames`, one after the other, from `s`. */
  function RunFrames(cfg: Config, s: State, frames: seq<TimedFrame>): (State, seq<Event>)
    decreases |frames|
  {
    if frames == [] then (s, [])
    else
      var (s', events) := RunFrames(cfg, s, frames[..|frames| - 1]);
      var (s'', more) := FrameStep(cfg, s', frames[|frames| - 1]);
      (s'', events + more)
  }

  /** A run of frames is the run of all but the last, then the last. */
  lemma RunFramesSnoc(cfg: Config, s: State, frames: seq<TimedFrame>)
    requires frames != []
    ensures var (a, events) := RunFrames(cfg, s, frames[..|frames| - 1]);
      var (b, more) := FrameStep(cfg, a, frames[|frames| - 1]);
      RunFrames(cfg, s, frames) == (b, events + more)
  {
  }

  /** The framing of the loop, with each frame stamped by its delimiter's clock reading. */
  function TimedDeframe(pending: seq<byte>, ticks: seq<Tick>): (r: (seq<TimedFrame>, seq<byte>))
    decreases |ticks|
  {
    if ticks == [] then ([], pending)
    else
      var (frames, p) := TimedDeframe(pending, ticks[..|ticks| - 1]);
      var t := ticks[|ticks| - 1];
      match t.read
      case None => (frames, p)
      case Some(b) =>
        if b == Delimiter then (frames + [TimedFrame(p, t.nowMs)], [])
        else (frames, p + [b])
  }

  function Reads(ticks: seq<Tick>): (input: seq<Option<byte>>)
    ensures |input| == |ticks|
    ensures forall i :: 0 <= i < |ticks| ==> input[i] == ticks[i].read
  {
    seq(|ticks|, i requires 0 <= i < |ticks| => ticks[i].read)
  }

  function Messages(frames: seq<TimedFrame>): (msgs: seq<seq<byte>>)
    ensures |msgs| == |frames|
    ensures forall i :: 0 <= i < |frames| ==> msgs[i] == frames[i].msg
  {
    seq(|frames|, i requires 0 <= i < |frames| => frames[i].msg)
  }

  /** The logger frames its reads exactly as the shared deframer does. */
  lemma {:induction false} TimedDeframeIsDeframe(pending: seq<byte>, ticks: seq<Tick>)
    ensures Messages(TimedDeframe(pending, ticks).0) == DeframeFrom(Split([], pending), Reads(ticks)).frames
    ensures TimedDeframe(pending, ticks).1 == DeframeFrom(Split([], pending), Reads(ticks)).pending
    decreases |ticks|
  {
    if ticks != [] {
      var init := ticks[..|ticks| - 1];
      TimedDeframeIsDeframe(pending, init);
      assert Reads(ticks)[..|ticks| - 1] == Reads(init);
    }
  }

  /** `OnFrame` neither reads nor writes the buffer. */
  lemma OnFrameIgnoresBuffer(cfg: Config, s: State, buffer: seq<byte>, msg: seq<byte>, nowMs: int)
    ensures OnFrame(cfg, s.(buffer := buffer), msg, nowMs).0 == OnFrame(cfg, s, msg, nowMs).0.(buffer := buffer)
    ensures OnFrame(cfg, s.(buffer := buffer), msg, nowMs).1 == OnFrame(cfg, s, msg, nowMs).1
  {
  }

  /**
   * The read loop is the frame loop over the frames its reads complete:
   * same events, same state apart from the buffer, and while the run is
   * alive the buffer holds exactly the bytes read since the last delimiter.
   */
  lemma {:induction false} RunIsFrameRun(cfg: Config, s: State, ticks: seq<Tick>)
    ensures var (s1, e1) := Run(cfg, s, ticks);
      var (frames, pending) := TimedDeframe(s.buffer, ticks);
      var (s2, e2) := RunFrames(cfg, s, frames);
      && e1 == e2
      && s1.(buffer := []) == s2.(buffer := [])
      && (!s1.halted ==> s1.buffer == pending)
    decreases |ticks|
  {
    if ticks != [] {
      var init := ticks[..|ticks| - 1];
      var t := ticks[|ticks| - 1];
      RunIsFrameRun(cfg, s, init);
      var (a1, x1) := Run(cfg, s, init);
      var (frames, pending) := TimedDeframe(s.buffer, init);
      var (a2, x2) := RunFrames(cfg, s, frames);
      assert a1.halted == a2.halted by {
        assert a1.(buffer := []).halted == a2.(buffer := []).halted;
      }
      if !a1.halted && t.read.Some? && t.read.value == Delimiter {
        var f := TimedFrame(pending, t.nowMs);
        assert TimedDeframe(s.buffer, ticks).0 == frames + [f];
        assert (frames + [f])[..|frames|] == frames;
        OnFrameIgnoresBuffer(cfg, a2, [], pending, t.nowMs);
        OnFrameIgnoresBuffer(cfg, a1, [], pending, t.nowMs);
        assert a1.(buffer := []) == a2.(buffer := []);
      }
    }
  }

  // ---------------------------------------------------------------------
  // What the events of a run say
  // ---------------------------------------------------------------------

  /** The values `select` picks from `events`, in order. */
  function Collect(events: seq<Event>, select: Event -> Option<int>): seq<int>
    decreases |events|
  {
    if events == [] then []
    else
      var rest := Collect(events[..|events| - 1], select);
      match select(events[|events| - 1])
      case None => rest
      case Some(v) => rest + [v]
  }

  lemma {:induction false} CollectAppend(a: seq<Event>, b: seq<Event>, select: Event -> Option<int>)
    ensures Collect(a + b, select) == Collect(a, select) + Collect(b, select)
    decreases |b|
  {
    if b == [] {
      assert a + b == a;
    } else {
      var b' := b[..|b| - 1];
      assert (a + b)[..|a + b| - 1] == a + b';
      CollectAppend(a, b', select);
    }
  }

  /** The clock reading of a fine sample (its InfluxDB write). */
  function FineTime(e: Event): Option<int>
  {
    if e.InfluxWrite? then Some(e.ms) else None
  }

  /** The level of a fine sample. */
  function FineLevel(e: Event): Option<int>
  {
    if e.InfluxWrite? then Some(e.tenths) else None
  }

  /** The clock reading of a compliance sample. */
  function ComplianceTime(e: Event): Option<int>
  {
    if e.ComplianceCsv? then Some(e.ms) else None
  }

  /** The peak of a violation report. */
  function ReportedPeak(e: Event): Option<int>
  {
    if e.Violation? then Some(e.peakTenths) else None
  }

  /** The value an event contributes to a `Collect`, as a sequence of at most one element. */
  function Picked(e: Event, select: Event -> Option<int>): seq<int>
  {
    if select(e).Some? then [select(e).value] else []
  }

  lemma CollectOne(e: Event, select: Event -> Option<int>)
    ensures Collect([e], select) == Picked(e, select)
  {
    assert [e][..0] == [];
  }

  lemma BlockCollect(tenths: int, ms: int, peak: Option<int>, compliance: bool, select: Event -> Option<int>)
    ensures Collect(Block(tenths, ms, peak, compliance), select)
      == Picked(InfluxWrite(tenths, ms), select)
         + (if peak.Some? then Picked(Violation(peak.value), select) else [])
         + Picked(FineCsv(tenths, ms), select)
         + (if compliance then Picked(ComplianceCsv(tenths, ms), select) else [])
  {
    var report := if peak.Some? then [Violation(peak.value)] else [];
    var pre := [InfluxWrite(tenths, ms)] + report;
    var mid := pre + [FineCsv(tenths, ms)];
    var post := if compliance then [ComplianceCsv(tenths, ms)] else [];
    assert Block(tenths, ms, peak, compliance) == mid + post;
    CollectAppend(mid, post, select);
    CollectAppend(pre, [FineCsv(tenths, ms)], select);
    CollectAppend([InfluxWrite(tenths, ms)], report, select);
    CollectOne(InfluxWrite(tenths, ms), select);
    CollectOne(FineCsv(tenths, ms), select);
    if peak.Some? {
      CollectOne(Violation(peak.value), select);
    }
    if compliance {
      CollectOne(ComplianceCsv(tenths, ms), select);
    }
  }

  /** What each selector finds in one block. */
  lemma BlockCollects(tenths: int, ms: int, peak: Option<int>, compliance: bool)
    ensures Collect(Block(tenths, ms, peak, compliance), FineTime) == [ms]
    ensures Collect(Block(tenths, ms, peak, compliance), FineLevel) == [tenths]
    ensures Collect(Block(tenths, ms, peak, compliance), ComplianceTime) == if compliance then [ms] else []
    ensures Collect(Block(tenths, ms, peak, compliance), ReportedPeak) == if peak.Some? then [peak.value] else []
  {
    BlockCollect(tenths, ms, peak, compliance, FineTime);
    BlockCollect(tenths, ms, peak, compliance, FineLevel);
    BlockCollect(tenths, ms, peak, compliance, ComplianceTime);
    BlockCollect(tenths, ms, peak, compliance, ReportedPeak);
  }

  /**
   * What one frame does to the deadlines and the tracker, read off its
   * events: no sample leaves them alone; a sample at or past the fine
   * deadline moves it, moves the compliance deadline when that is reached
   * too, and feeds the tracker.
   */
  lemma FrameStepEffect(cfg: Config, a: State, f: TimedFrame)
    ensures var (b, more) := FrameStep(cfg, a, f);
      if more == [] then
        && b.nextSample == a.nextSample && b.nextCompliance == a.nextCompliance && b.tracker == a.tracker
        && Collect(more, FineTime) == [] && Collect(more, FineLevel) == []
        && Collect(more, ComplianceTime) == [] && Collect(more, ReportedPeak) == []
      else
        var compliance := b.lastMs >= a.nextCompliance;
        var (tracker, peak) := Track(cfg, a.tracker, b.lastTenths);
        && b.lastMs >= a.nextSample
        && b.nextSample == b.lastMs + cfg.sampleInterval
        && b.nextCompliance == (if compliance then b.lastMs + cfg.complianceInterval else a.nextCompliance)
        && b.tracker == tracker
        && Collect(more, FineTime) == [b.lastMs]
        && Collect(more, FineLevel) == [b.lastTenths]
        && Collect(more, ComplianceTime) == (if compliance then [b.lastMs] else [])
        && Collect(more, ReportedPeak) == (if peak.Some? then [peak.value] else [])
  {
    var (b, more) := FrameStep(cfg, a, f);
    if !a.halted {
      OnFrameAcceptance(cfg, a, f.msg, f.ms);
      if more != [] {
        BlockCollects(b.lastTenths, b.lastMs, Track(cfg, a.tracker, b.lastTenths).1, b.lastMs >= a.nextCompliance);
      }
    }
  }

  /** Each reading is at least `gap` after the one before, and the first is at least `first`. */
  ghost predicate Spaced(times: seq<int>, first: int, gap: int)
  {
    && (|times| > 0 ==> times[0] >= first)
    && forall k :: 0 < k < |times| ==> times[k] >= times[k - 1] + gap
  }

  lemma SpacedAppend(times: seq<int>, first: int, gap: int, t: int)
    requires Spaced(times, first, gap)
    requires if times == [] then t >= first else t >= times[|times| - 1] + gap
    ensures Spaced(times + [t], first, gap)
  {
  }

  /** The deadline a run leaves: the last acceptance plus the interval, or the deadline it started from. */
  function Deadline(times: seq<int>, start: int, interval: int): int
  {
    if times == [] then start else times[|times| - 1] + interval
  }

  /**
   * Over any frames, fine samples are accepted only at or after the fine
   * deadline and at least `sample_interval` apart, and the deadline left is
   * the last acceptance plus the interval. No ordering of the clock
   * readings is required.
   */
  lemma {:induction false} FramesFineSpacing(cfg: Config, s: State, frames: seq<TimedFrame>)
    ensures var (s', events) := RunFrames(cfg, s, frames);
      var fine := Collect(events, FineTime);
      && Spaced(fine, s.nextSample, cfg.sampleInterval)
      && s'.nextSample == Deadline(fine, s.nextSample, cfg.sampleInterval)
    decreases |frames|
  {
    if frames != [] {
      var init := frames[..|frames| - 1];
      var f := frames[|frames| - 1];
      FramesFineSpacing(cfg, s, init);
      RunFramesSnoc(cfg, s, frames);
      var (a, events) := RunFrames(cfg, s, init);
      var (b, more) := FrameStep(cfg, a, f);
      CollectAppend(events, more, FineTime);
      FrameStepEffect(cfg, a, f);
      var before := Collect(events, FineTime);
      assert RunFrames(cfg, s, frames) == (b, events + more);
      if more != [] {
        SpacedAppend(before, s.nextSample, cfg.sampleInterval, b.lastMs);
        assert Collect(events + more, FineTime) == before + [b.lastMs];
      } else {
        assert Collect(events + more, FineTime) == before;
      }
    }
  }

  /** The same for compliance samples, with their own deadline and interval. */
  lemma {:induction false} FramesComplianceSpacing(cfg: Config, s: State, frames: seq<TimedFrame>)
    ensures var (s', events) := RunFrames(cfg, s, frames);
      var compliance := Collect(events, ComplianceTime);
      && Spaced(compliance, s.nextCompliance, cfg.complianceInterval)
      && s'.nextCompliance == Deadline(compliance, s.nextCompliance, cfg.complianceInterval)
    decreases |frames|
  {
    if frames != [] {
      var init := frames[..|frames| - 1];
      var f := frames[|frames| - 1];
      FramesComplianceSpacing(cfg, s, init);
      RunFramesSnoc(cfg, s, frames);
      var (a, events) := RunFrames(cfg, s, init);
      var (b, more) := FrameStep(cfg, a, f);
      CollectAppend(events, more, ComplianceTime);
      FrameStepEffect(cfg, a, f);
      var before := Collect(events, ComplianceTime);
      assert RunFrames(cfg, s, frames) == (b, events + more);
      if more != [] && b.lastMs >= a.nextCompliance {
        assert Collect(more, ComplianceTime) == [b.lastMs];
        SpacedAppend(before, s.nextCompliance, cfg.complianceInterval, b.lastMs);
        assert Collect(events + more, ComplianceTime) == before + [b.lastMs];
        assert b.nextCompliance == b.lastMs + cfg.complianceInterval;
      } else {
        assert Collect(more, ComplianceTime) == [];
        assert Collect(events + more, ComplianceTime) == before;
        assert b.nextCompliance == a.nextCompliance;
      }
    }
  }

  /**
   * The peak tracker of a run sees exactly the run's fine samples: the
   * final tracker and the reported peaks are those of `TrackAll` over the
   * accepted levels.
   */
  lemma {:induction false} FramesTracking(cfg: Config, s: State, frames: seq<TimedFrame>)
    ensures var (s', events) := RunFrames(cfg, s, frames);
      TrackAll(cfg, s.tracker, Collect(events, FineLevel)) == (s'.tracker, Collect(events, ReportedPeak))
    decreases |frames|
  {
    if frames != [] {
      var init := frames[..|frames| - 1];
      var f := frames[|frames| - 1];
      FramesTracking(cfg, s, init);
      RunFramesSnoc(cfg, s, frames);
      var (a, events) := RunFrames(cfg, s, init);
      var (b, more) := FrameStep(cfg, a, f);
      CollectAppend(events, more, FineLevel);
      CollectAppend(events, more, ReportedPeak);
      FrameStepEffect(cfg, a, f);
      var levels := Collect(events, FineLevel) + Collect(more, FineLevel);
      if more != [] {
        assert levels == Collect(events, FineLevel) + [b.lastTenths];
        assert levels[..|levels| - 1] == Collect(events, FineLevel);
        var (tracker, peak) := Track(cfg, a.tracker, b.lastTenths);
        assert TrackAll(cfg, s.tracker, levels) == (tracker, Collect(events, ReportedPeak) + if peak.Some? then [peak.value] else []);
      } else {
        assert levels == Collect(events, FineLevel);
        assert Collect(events + more, ReportedPeak) == Collect(events, ReportedPeak);
      }
    }
  }

  /**
   * The order of the events: every InfluxDB write is followed by the fine
   * CSV line of the same sample, directly or after one violation report,
   * and every compliance line directly follows the fine line of the same
   * sample (so compliance samples are fine samples).
   */
  ghost predicate WellOrdered(events: seq<Event>)
  {
    forall i :: 0 <= i < |events| ==> WellOrderedAt(events, i)
  }

  ghost predicate WellOrderedAt(events: seq<Event>, i: int)
    requires 0 <= i < |events|
  {
    && (events[i].InfluxWrite? ==>
          var fine := FineCsv(events[i].tenths, events[i].ms);
          || (i + 1 < |events| && events[i + 1] == fine)
          || (i + 2 < |events| && events[i + 1].Violation? && events[i + 2] == fine))
    && (events[i].ComplianceCsv? ==>
          0 < i && events[i - 1] == FineCsv(events[i].tenths, events[i].ms))
  }

  lemma BlockWellOrdered(tenths: int, ms: int, peak: Option<int>, compliance: bool)
    ensures WellOrdered(Block(tenths, ms, peak, compliance))
    ensures Block(tenths, ms, peak, compliance)[0].InfluxWrite?
  {
    var e := Block(tenths, ms, peak, compliance);
    forall i | 0 <= i < |e| ensures WellOrderedAt(e, i) {
    }
  }

  lemma WellOrderedAppend(a: seq<Event>, b: seq<Event>)
    requires WellOrdered(a) && WellOrdered(b)
    requires b != [] ==> !b[0].ComplianceCsv?
    ensures WellOrdered(a + b)
  {
    var e := a + b;
    forall i | 0 <= i < |e| ensures WellOrderedAt(e, i) {
      if i >= |a| {
        var j := i - |a|;
        assert WellOrderedAt(b, j);
        assert e[i] == b[j];
        if 0 < j { assert e[i - 1] == b[j - 1]; }
        if i + 1 < |e| { assert e[i + 1] == b[j + 1]; }
        if i + 2 < |e| { assert e[i + 2] == b[j + 2]; }
      } else {
        assert WellOrderedAt(a, i);
        assert e[i] == a[i];
        if 0 < i { assert e[i - 1] == a[i - 1]; }
        if i + 1 < |a| { assert e[i + 1] == a[i + 1]; }
        if i + 2 < |a| { assert e[i + 2] == a[i + 2]; }
      }
    }
  }

  lemma {:induction false} FramesWellOrdered(cfg: Config, s: State, frames: seq<TimedFrame>)
    ensures WellOrdered(RunFrames(cfg, s, frames).1)
    decreases |frames|
  {
    if frames != [] {
      var init := frames[..|frames| - 1];
      var f := frames[|frames| - 1];
      FramesWellOrdered(cfg, s, init);
      RunFramesSnoc(cfg, s, frames);
      var (a, events) := RunFrames(cfg, s, init);
      var (b, more) := FrameStep(cfg, a, f);
      if more != [] {
        OnFrameAcceptance(cfg, a, f.msg, f.ms);
        BlockWellOrdered(b.lastTenths, b.lastMs, Track(cfg, a.tracker, b.lastTenths).1, b.lastMs >= a.nextCompliance);
      }
      WellOrderedAppend(events, more);
    }
  }

  /**
   * With a positive `sample_interval`, a measurement is never accepted
   * twice: after an acceptance (or whenever the last measurement is no
   * longer due), frames that decode no new 0x0D level — empty frames and
   * frames with any other key — produce no sample at all.
   */
  lemma {:induction false} NoDoubleAcceptance(cfg: Config, s: State, frames: seq<TimedFrame>)
    requires cfg.sampleInterval > 0
    requires s.key != NoiseKey || s.lastMs < s.nextSample
    requires forall i :: 0 <= i < |frames| ==> frames[i].msg == [] || frames[i].msg[0] != NoiseKey
    ensures RunFrames(cfg, s, frames).1 == []
    ensures var s' := RunFrames(cfg, s, frames).0; s'.key != NoiseKey || s'.lastMs < s'.nextSample
    decreases |frames|
  {
    if frames != [] {
      var init := frames[..|frames| - 1];
      assert forall i :: 0 <= i < |init| ==> init[i] == frames[i];
      NoDoubleAcceptance(cfg, s, init);
    }
  }

  /** Milliseconds in a day: the clock reading is always below this. */
  const MsPerDay: int := 86_400_000

  /**
   * The midnight stall: the clock reading restarts at 0 each UTC midnight,
   * but the deadline is not. Once the fine deadline is at or past
   * midnight (an acceptance within `sample_interval` of the end of the
   * day), no later frame read on a same-day clock is ever accepted.
   */
  lemma {:induction false} MidnightStall(cfg: Config, s: State, frames: seq<TimedFrame>)
    requires s.nextSample >= MsPerDay && s.lastMs < MsPerDay
    requires forall i :: 0 <= i < |frames| ==> 0 <= frames[i].ms < MsPerDay
    ensures RunFrames(cfg, s, frames).1 == []
    ensures RunFrames(cfg, s, frames).0.nextSample == s.nextSample
    ensures RunFrames(cfg, s, frames).0.lastMs < MsPerDay
    decreases |frames|
  {
    if frames != [] {
      var init := frames[..|frames| - 1];
      assert forall i :: 0 <= i < |init| ==> init[i] == frames[i];
      MidnightStall(cfg, s, init);
    }
  }

  // ---------------------------------------------------------------------
  // The same promises for the read loop from its initial state
  // ---------------------------------------------------------------------

  /**
   * From the start of `update()`: the first fine sample is at least
   * `sample_interval` after the start reading and each later one at least
   * `sample_interval` after the one before; the same for compliance
   * samples with `compliance_sample_interval`.
   */
  lemma LoggerSpacing(cfg: Config, startMs: int, ticks: seq<Tick>)
    ensures var events := Run(cfg, Init(cfg, startMs), ticks).1;
      && Spaced(Collect(events, FineTime), startMs + cfg.sampleInterval, cfg.sampleInterval)
      && Spaced(Collect(events, ComplianceTime), startMs + cfg.complianceInterval, cfg.complianceInterval)
  {
    var s := Init(cfg, startMs);
    RunIsFrameRun(cfg, s, ticks);
    FramesFineSpacing(cfg, s, TimedDeframe(s.buffer, ticks).0);
    FramesComplianceSpacing(cfg, s, TimedDeframe(s.buffer, ticks).0);
  }

  /**
   * From the start of `update()`: the events are well ordered, the peak
   * tracker between samples is idle or has counted 1..19 samples, and the
   * violations reported are exactly the peaks of `TrackAll` over the fine
   * samples, each above `maximum_noise_level`.
   */
  lemma LoggerEvents(cfg: Config, startMs: int, ticks: seq<Tick>)
    ensures var (s', events) := Run(cfg, Init(cfg, startMs), ticks);
      && WellOrdered(events)
      && TrackerOk(cfg, s'.tracker)
      && TrackAll(cfg, Idle, Collect(events, FineLevel)) == (s'.tracker, Collect(events, ReportedPeak))
      && (forall p :: p in Collect(events, ReportedPeak) ==> p > Threshold(cfg))
  {
    var s := Init(cfg, startMs);
    var frames := TimedDeframe(s.buffer, ticks).0;
    RunIsFrameRun(cfg, s, ticks);
    FramesWellOrdered(cfg, s, frames);
    FramesTracking(cfg, s, frames);
    TrackAllKeepsOk(cfg, Idle, Collect(RunFrames(cfg, s, frames).1, FineLevel));
  }

  /**
   * The buffer of the read loop: it never holds the delimiter, and while
   * the run is alive it holds exactly what the shared deframer has pending,
   * while the frames the loop processed are exactly the deframer's frames.
   */
  lemma LoggerFraming(cfg: Config, startMs: int, ticks: seq<Tick>)
    ensures var s' := Run(cfg, Init(cfg, startMs), ticks).0;
      && Messages(TimedDeframe([], ticks).0) == Deframe(Reads(ticks)).frames
      && (!s'.halted ==> s'.buffer == Deframe(Reads(ticks)).pending)
      && Delimiter !in s'.buffer
  {
    var s := Init(cfg, startMs);
    RunIsFrameRun(cfg, s, ticks);
    TimedDeframeIsDeframe([], ticks);
    DeframeShape(Reads(ticks));
    LoggerBufferFree(cfg, s, ticks);
  }

  lemma {:induction false} LoggerBufferFree(cfg: Config, s: State, ticks: seq<Tick>)
    requires Delimiter !in s.buffer
    ensures Delimiter !in Run(cfg, s, ticks).0.buffer
    decreases |ticks|
  {
    if ticks != [] {
      LoggerBufferFree(cfg, s, ticks[..|ticks| - 1]);
    }
  }
}

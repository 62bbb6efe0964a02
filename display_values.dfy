/**
 * The on-screen diagnostic tool: the same framing loop as the logger,
 * dispatching every completed frame on its key byte to one screen field.
 * The curses calls (rows, columns, clearing) are not modelled; what each
 * frame puts on the screen is modelled as an `Update` value.
 */
module DisplayValues {
  import opened Protocol
  import opened Deframer

  /** The branch of the `elif` chain that a nonzero key byte takes. */
  datatype KeyClass =
    | NoiseLevelKey
    | SpeedKey(speed: string)
    | RangeKey(range: string)
    | MinMaxKey(mode: string)
    | UnknownFieldKey
    | RecordKey(state: string)
    | UnknownMessageKey

  /** The key dispatch, in the order of the `elif` chain. */
  function ClassifyKey(key: byte): KeyClass
    requires key != 0
  {
    if key == 0x0D then NoiseLevelKey
    else if key == 0x02 then SpeedKey("FAST")
    else if key == 0x03 then SpeedKey("SLOW")
    else if key == 0x4B then RangeKey("50 - 100")
    else if key == 0x4C then RangeKey("80 - 130")
    else if key == 0x40 then RangeKey("30 - 130")
    else if key == 0x30 then RangeKey("30 - 80")
    else if key == 0x04 then MinMaxKey("MAX")
    else if key == 0x05 then MinMaxKey("MIN")
    else if key == 0x0C then UnknownFieldKey
    else if key == 0x1B then UnknownFieldKey
    else if key == 0x06 then UnknownFieldKey
    else if key == 0x0E then UnknownFieldKey
    else if key == 0x08 then UnknownFieldKey
    else if key == 0x0B then UnknownFieldKey
    else if key == 0x19 then UnknownFieldKey
    else if key == 0x1F then UnknownFieldKey
    else if key == 0x11 then UnknownFieldKey
    else if key == 0x0A then RecordKey("ON")
    else if key == 0x1A then RecordKey("OFF")
    else UnknownMessageKey
  }

  /** The keys the tool names, as a lookup table. */
  const KeyTable: map<byte, KeyClass> := map[
    0x0D := NoiseLevelKey,
    0x02 := SpeedKey("FAST"), 0x03 := SpeedKey("SLOW"),
    0x4B := RangeKey("50 - 100"), 0x4C := RangeKey("80 - 130"),
    0x40 := RangeKey("30 - 130"), 0x30 := RangeKey("30 - 80"),
    0x04 := MinMaxKey("MAX"), 0x05 := MinMaxKey("MIN"),
    0x0C := UnknownFieldKey, 0x1B := UnknownFieldKey, 0x06 := UnknownFieldKey,
    0x0E := UnknownFieldKey, 0x08 := UnknownFieldKey, 0x0B := UnknownFieldKey,
    0x19 := UnknownFieldKey, 0x1F := UnknownFieldKey, 0x11 := UnknownFieldKey,
    0x0A := RecordKey("ON"), 0x1A := RecordKey("OFF")
  ]

  /**
   * The `elif` chain is the table lookup: every nonzero key the table
   * names takes its entry, every other nonzero key the catch-all.
   */
  lemma ClassifyKeyIsLookup(key: byte)
    requires key != 0
    ensures ClassifyKey(key) == if key in KeyTable then KeyTable[key] else UnknownMessageKey
  {
    if key in KeyTable {
      NamedKeysAreLookedUp(key);
    } else {
      assert key != 0x0D && key != 0x02 && key != 0x03 && key != 0x4B && key != 0x4C;
      assert key != 0x40 && key != 0x30 && key != 0x04 && key != 0x05 && key != 0x0C;
      assert key != 0x1B && key != 0x06 && key != 0x0E && key != 0x08 && key != 0x0B;
      assert key != 0x19 && key != 0x1F && key != 0x11 && key != 0x0A && key != 0x1A;
    }
  }

  lemma NamedKeysAreLookedUp(key: byte)
    requires key in KeyTable
    ensures ClassifyKey(key) == KeyTable[key]
  {
    if key == 0x0D {} else if key == 0x02 {} else if key == 0x03 {}
    else if key == 0x4B {} else if key == 0x4C {} else if key == 0x40 {} else if key == 0x30 {}
    else if key == 0x04 {} else if key == 0x05 {}
    else if key == 0x0C {} else if key == 0x1B {} else if key == 0x06 {} else if key == 0x0E {}
    else if key == 0x08 {} else if key == 0x0B {} else if key == 0x19 {} else if key == 0x1F {}
    else if key == 0x11 {} else if key == 0x0A {} else {}
  }

  /** Only key 0x0D takes the noise-level branch. */
  lemma NoiseBranchIsNoiseKey(key: byte)
    requires key != 0
    ensures ClassifyKey(key) == NoiseLevelKey <==> key == NoiseKey
  {
  }

  /** The fields the catch-all never takes, and the one it does. */
  lemma CatchAllExactlyUnnamedKeys(key: byte)
    requires key != 0
    ensures ClassifyKey(key) == UnknownMessageKey <==> key !in KeyTable
  {
    ClassifyKeyIsLookup(key);
  }

  /** What one delimiter puts on the screen. */
  datatype Update =
    | BufferEmpty                                // "Message buffer is empty."
    | NoUpdate                                   // key byte 0: nothing is drawn
    | NoiseLevel(tenths: int, hex: string)       // "dB: " row
    | Speed(speed: string)                       // "Speed: " row
    | Range(range: string, hex: string)          // "Range: " row
    | MinMax(mode: string)                       // "MIN/MAX: " row
    | UnknownField(key: byte, hex: string)       // the key's own "Unknown: " row
    | Record(state: string, hex: string)         // "Record: " row
    | UnknownMessage(hex: string)               // "Unknown message: " + hex

  /**
   * The screen update for the frame `msg`. A 0x0D frame shorter than three
   * bytes raises IndexError, which the tool does not catch.
   */
  function Show(msg: seq<byte>): Result<Update, IndexError>
  {
    if msg == [] then Ok(BufferEmpty)
    else if msg[0] == 0 then Ok(NoUpdate)
    else
      match ClassifyKey(msg[0])
      case NoiseLevelKey =>
        (match DecodeNoise(msg)
         case Ok(tenths) => Ok(NoiseLevel(tenths, Hex(msg)))
         case Err(e) => Err(e))
      case SpeedKey(speed) => Ok(Speed(speed))
      case RangeKey(range) => Ok(Range(range, Hex(msg)))
      case MinMaxKey(mode) => Ok(MinMax(mode))
      case UnknownFieldKey => Ok(UnknownField(msg[0], Hex(msg)))
      case RecordKey(state) => Ok(Record(state, Hex(msg)))
      case UnknownMessageKey => Ok(UnknownMessage(Hex(msg)))
  }

  /** The frame's bytes, in lowercase hex, shown by the update (if it shows any). */
  function ShownHex(u: Update): Option<string>
  {
    match u
    case NoiseLevel(_, hex) => Some(hex)
    case Range(_, hex) => Some(hex)
    case UnknownField(_, hex) => Some(hex)
    case Record(_, hex) => Some(hex)
    case UnknownMessage(hex) => Some(hex)
    case _ => None
  }

  /**
   * The outcome of one frame: only an empty buffer gives the empty notice,
   * only key 0 leaves the screen alone, only a short 0x0D frame fails, and
   * a 0x0D frame shows the logger's level.
   */
  lemma ShowOutcome(msg: seq<byte>)
    ensures Show(msg) == Ok(BufferEmpty) <==> msg == []
    ensures Show(msg) == Ok(NoUpdate) <==> msg != [] && msg[0] == 0
    ensures Show(msg).Err? <==> msg != [] && msg[0] == NoiseKey && |msg| < 3
    ensures msg != [] && msg[0] == NoiseKey && |msg| >= 3 ==>
              Show(msg) == Ok(NoiseLevel(NoiseTenths(msg[1], msg[2]), Hex(msg)))
  {
    if msg != [] && msg[0] != 0 {
      NoiseBranchIsNoiseKey(msg[0]);
    }
  }

  /** Every hex an update shows is the frame's own `msg.hex()`, and reads back as the frame. */
  lemma ShownHexRoundTrip(msg: seq<byte>)
    ensures Show(msg).Ok? && ShownHex(Show(msg).value).Some? ==>
              var hex := ShownHex(Show(msg).value).value;
              && hex == Hex(msg)
              && |hex| % 2 == 0 && (forall i :: 0 <= i < |hex| ==> IsHexDigit(hex[i]))
              && ParseHex(hex) == msg
  {
    if msg != [] && msg[0] != 0 {
      HexRoundTrip(msg);
    }
  }

  /** The updates drawn for `frames`, stopping at the first frame that raises. */
  function ShowAll(frames: seq<seq<byte>>): (r: (seq<Update>, Option<IndexError>))
    decreases |frames|
  {
    if frames == [] then ([], None)
    else
      var (shown, error) := ShowAll(frames[..|frames| - 1]);
      if error.Some? then (shown, error)
      else
        match Show(frames[|frames| - 1])
        case Ok(u) => (shown + [u], None)
        case Err(e) => (shown, Some(e))
  }

  /** After a frame raised, later frames draw nothing. */
  lemma {:induction false} ShowAllStops(frames: seq<seq<byte>>, later: seq<seq<byte>>)
    requires ShowAll(frames).1.Some?
    ensures ShowAll(frames + later) == ShowAll(frames)
    decreases |later|
  {
    if later == [] {
      assert frames + later == frames;
    } else {
      var later' := later[..|later| - 1];
      assert (frames + later)[..|frames + later| - 1] == frames + later';
      ShowAllStops(frames, later');
    }
  }

  /** Without an error, there is one update per frame. */
  lemma {:induction false} ShowAllCount(frames: seq<seq<byte>>)
    ensures ShowAll(frames).1.None? ==> |ShowAll(frames).0| == |frames|
    ensures |ShowAll(frames).0| <= |frames|
    decreases |frames|
  {
    if frames != [] {
      ShowAllCount(frames[..|frames| - 1]);
    }
  }

  /**
   * The tool's read loop: on each delimiter the buffer is shown and
   * emptied, any other byte is appended, a timeout changes nothing. The
   * loop ends at the first IndexError, which leaves the tool.
   */
  method DisplayLoop(input: seq<Option<byte>>) returns (updates: seq<Update>, error: Option<IndexError>)
    ensures (updates, error) == ShowAll(Deframe(input).frames)
    ensures error.None? ==> |updates| == CountDelimiters(input)
  {
    var messageBuffer: seq<byte> := [];
    updates, error := [], None;
    var i := 0;
    while i < |input| && error.None?
      invariant 0 <= i <= |input|
      invariant messageBuffer == Deframe(input[..i]).pending
      invariant (updates, error) == ShowAll(Deframe(input[..i]).frames)
    {
      assert input[..i + 1][..i] == input[..i];
      var read := input[i];
      if read.Some? {
        if read.value == Delimiter {
          var shown := Show(messageBuffer);
          match shown {
            case Ok(u) => updates := updates + [u];
            case Err(e) => error := Some(e);
          }
          messageBuffer := [];
        } else {
          messageBuffer := messageBuffer + [read.value];
        }
      }
      i := i + 1;
    }
    if i == |input| {
      assert input[..i] == input;
    } else {
      var done := Deframe(input[..i]).frames;
      var all := Deframe(input).frames;
      DeframePrefix(input, i);
      assert all == done + all[|done|..];
      ShowAllStops(done, all[|done|..]);
    }
    DeframeShape(input);
    ShowAllCount(Deframe(input).frames);
  }
}

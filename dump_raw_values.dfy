/**
 * `read_stream_from_usb_serial_with_delimiter` of the raw dump tool: the
 * framing loop, printing one record per delimiter. A nonempty frame is
 * printed as its bytes in two lowercase hex digits each followed by a
 * space, then a newline; an empty frame as "Message buffer is empty.".
 * The tool's `while True` runs until interrupted; here it runs over a
 * finite prefix of the reads, and the printed records are returned.
 */
module DumpRawValues {
  import opened Protocol
  import opened Deframer

  /** What `print("Message buffer is empty.")` writes. */
  const EmptyNotice: string := "Message buffer is empty.\n"

  /** `print(f"{b:02x}", end=" ")` for every byte of `frame`. */
  function SpacedHex(frame: seq<byte>): (s: string)
    ensures |s| == 3 * |frame|
    ensures forall i :: 0 <= i < |s| ==> if i % 3 == 2 then s[i] == ' ' else IsHexDigit(s[i])
  {
    if frame == [] then ""
    else
      var rest := SpacedHex(frame[1..]);
      var s := Hex2(frame[0]) + " " + rest;
      assert forall i :: 3 <= i < |s| ==> s[i] == rest[i - 3];
      s
  }

  /** The text printed when a delimiter arrives with `frame` in the buffer. */
  function Record(frame: seq<byte>): string
  {
    if frame == [] then EmptyNotice else SpacedHex(frame) + "\n"
  }

  /** The records printed for `frames`, in order. */
  function Records(frames: seq<seq<byte>>): (out: seq<string>)
    ensures |out| == |frames|
    ensures forall i :: 0 <= i < |frames| ==> out[i] == Record(frames[i])
  {
    seq(|frames|, i requires 0 <= i < |frames| => Record(frames[i]))
  }

  /** Reads back the bytes of a run of "xx " groups. */
  function ParseSpacedHex(s: string): (frame: seq<byte>)
    requires |s| % 3 == 0
    requires forall i :: 0 <= i < |s| && i % 3 != 2 ==> IsHexDigit(s[i])
    ensures |frame| == |s| / 3
  {
    if s == [] then []
    else [(16 * HexValue(s[0]) + HexValue(s[1])) as byte] + ParseSpacedHex(s[3..])
  }

  /** Reads back the frame a record was printed for. */
  function ParseRecord(line: string): (frame: seq<byte>)
    requires line == EmptyNotice || WellFormedHexLine(line)
  {
    if line == EmptyNotice then [] else ParseSpacedHex(line[..|line| - 1])
  }

  predicate WellFormedHexLine(line: string)
  {
    && |line| >= 1 && line[|line| - 1] == '\n'
    && (|line| - 1) % 3 == 0
    && forall i :: 0 <= i < |line| - 1 ==> if i % 3 == 2 then line[i] == ' ' else IsHexDigit(line[i])
  }

  lemma {:induction false} SpacedHexRoundTrip(frame: seq<byte>)
    ensures ParseSpacedHex(SpacedHex(frame)) == frame
  {
    if frame != [] {
      var s := SpacedHex(frame);
      assert s[3..] == SpacedHex(frame[1..]);
      Hex2RoundTrip(frame[0]);
      SpacedHexRoundTrip(frame[1..]);
    }
  }

  /**
   * A record loses nothing: the printed line determines the frame, and an
   * empty frame's notice cannot be mistaken for a frame's bytes.
   */
  lemma RecordRoundTrip(frame: seq<byte>)
    ensures Record(frame) == EmptyNotice || WellFormedHexLine(Record(frame))
    ensures ParseRecord(Record(frame)) == frame
  {
    if frame != [] {
      var line := Record(frame);
      assert IsHexDigit(line[0]) && !IsHexDigit(EmptyNotice[0]);
      assert line[..|line| - 1] == SpacedHex(frame);
      SpacedHexRoundTrip(frame);
    }
  }

  /**
   * The tool's read loop. Every delimiter prints one record for the buffer
   * and empties it; any other byte is appended; a timeout changes nothing.
   */
  method ReadStreamWithDelimiter(input: seq<Option<byte>>) returns (output: seq<string>)
    ensures output == Records(Deframe(input).frames)
    ensures |output| == CountDelimiters(input)
  {
    var messageBuffer: seq<byte> := [];
    output := [];
    var i := 0;
    while i < |input|
      invariant 0 <= i <= |input|
      invariant messageBuffer == Deframe(input[..i]).pending
      invariant output == Records(Deframe(input[..i]).frames)
    {
      assert input[..i + 1][..i] == input[..i];
      var read := input[i];
      if read.Some? {
        if read.value == Delimiter {
          output := output + [Record(messageBuffer)];
          messageBuffer := [];
        } else {
          messageBuffer := messageBuffer + [read.value];
        }
      }
      i := i + 1;
    }
    assert input[..i] == input;
    DeframeShape(input);
  }
}

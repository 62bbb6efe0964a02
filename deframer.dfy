/**
 * The framing shared by the logger and both diagnostic tools: bytes read
 * one at a time from the serial port accumulate in `message_buffer`; the
 * byte 0xA5 ends a frame (possibly empty) and is never stored; a read that
 * timed out (a falsy `ser.read(1)`) changes nothing.
 *
 * This module states that behaviour as functions over a finite prefix of
 * the reads and proves what it means: frames never contain the delimiter,
 * there is one frame per delimiter, and frames followed by delimiters
 * spell out exactly the bytes received, in order.
 */
module Deframer {
  import opened Protocol

  /** The completed frames, oldest first, and the bytes of the frame being read. */
  datatype Split = Split(frames: seq<seq<byte>>, pending: seq<byte>)

  const Start: Split := Split([], [])

  /** One `ser.read(1)`. */
  function Feed(s: Split, r: Option<byte>): Split
  {
    match r
    case None => s
    case Some(b) =>
      if b == Delimiter then Split(s.frames + [s.pending], [])
      else Split(s.frames, s.pending + [b])
  }

  /** The reads `input`, one after the other, from `s`. */
  function DeframeFrom(s: Split, input: seq<Option<byte>>): Split
    decreases |input|
  {
    if input == [] then s
    else Feed(DeframeFrom(s, input[..|input| - 1]), input[|input| - 1])
  }

  /** The frames and the pending buffer after the reads `input`, from an empty buffer. */
  function Deframe(input: seq<Option<byte>>): Split
  {
    DeframeFrom(Start, input)
  }

  /** The bytes actually received, timeouts dropped. */
  function Received(input: seq<Option<byte>>): seq<byte>
    decreases |input|
  {
    if input == [] then []
    else
      var rest := Received(input[..|input| - 1]);
      match input[|input| - 1]
      case None => rest
      case Some(b) => rest + [b]
  }

  /** The number of delimiters received. */
  function CountDelimiters(input: seq<Option<byte>>): nat
    decreases |input|
  {
    if input == [] then 0
    else CountDelimiters(input[..|input| - 1]) + if input[|input| - 1] == Some(Delimiter) then 1 else 0
  }

  /** The wire form of `frames`: each frame followed by a delimiter. */
  function Joined(frames: seq<seq<byte>>): seq<byte>
    decreases |frames|
  {
    if frames == [] then []
    else Joined(frames[..|frames| - 1]) + frames[|frames| - 1] + [Delimiter]
  }

  /** The reads that deliver `bytes` with no timeout. */
  function Present(bytes: seq<byte>): (input: seq<Option<byte>>)
    ensures |input| == |bytes|
    ensures forall i :: 0 <= i < |bytes| ==> input[i] == Some(bytes[i])
  {
    seq(|bytes|, i requires 0 <= i < |bytes| => Some(bytes[i]))
  }

  predicate DelimiterFree(frames: seq<seq<byte>>)
  {
    forall i :: 0 <= i < |frames| ==> Delimiter !in frames[i]
  }

  /**
   * What the deframer produces: frames and pending buffer are free of the
   * delimiter, there is one frame per delimiter received, and the frames,
   * each followed by a delimiter, then the pending bytes, are exactly the
   * bytes received in arrival order.
   */
  lemma {:induction false} DeframeShape(input: seq<Option<byte>>)
    ensures DelimiterFree(Deframe(input).frames) && Delimiter !in Deframe(input).pending
    ensures |Deframe(input).frames| == CountDelimiters(input)
    ensures Joined(Deframe(input).frames) + Deframe(input).pending == Received(input)
    decreases |input|
  {
    if input != [] {
      var prefix := input[..|input| - 1];
      DeframeShape(prefix);
      var s := Deframe(prefix);
      match input[|input| - 1]
      case None =>
      case Some(b) =>
        if b == Delimiter {
          assert Deframe(input).frames == s.frames + [s.pending];
          assert (s.frames + [s.pending])[..|s.frames|] == s.frames;
        }
    }
  }

  /** Reading `x` then `y` is reading `x + y`. */
  lemma {:induction false} DeframeFromAppend(s: Split, x: seq<Option<byte>>, y: seq<Option<byte>>)
    ensures DeframeFrom(s, x + y) == DeframeFrom(DeframeFrom(s, x), y)
    decreases |y|
  {
    if y == [] {
      assert x + y == x;
    } else {
      var y' := y[..|y| - 1];
      assert (x + y)[..|x + y| - 1] == x + y';
      DeframeFromAppend(s, x, y');
    }
  }

  /** Bytes free of the delimiter only extend the pending frame. */
  lemma {:induction false} DeframePlainBytes(s: Split, bytes: seq<byte>)
    requires Delimiter !in bytes
    ensures DeframeFrom(s, Present(bytes)) == Split(s.frames, s.pending + bytes)
    decreases |bytes|
  {
    if bytes == [] {
      assert s.pending + bytes == s.pending;
    } else {
      var bytes' := bytes[..|bytes| - 1];
      assert Present(bytes)[..|bytes| - 1] == Present(bytes');
      DeframePlainBytes(s, bytes');
      assert s.pending + bytes' + [bytes[|bytes| - 1]] == s.pending + bytes;
    }
  }

  lemma PresentAppend(x: seq<byte>, y: seq<byte>)
    ensures Present(x + y) == Present(x) + Present(y)
  {
  }

  /** A delimiter-free frame, its delimiter and a delimiter-free tail, read from an empty buffer. */
  lemma DeframeOneFrame(s: Split, frame: seq<byte>, tail: seq<byte>)
    requires s.pending == [] && Delimiter !in frame && Delimiter !in tail
    ensures DeframeFrom(s, Present(frame + [Delimiter] + tail)) == Split(s.frames + [frame], tail)
  {
    PresentAppend(frame + [Delimiter], tail);
    PresentAppend(frame, [Delimiter]);
    DeframeFromAppend(s, Present(frame) + Present([Delimiter]), Present(tail));
    DeframeFromAppend(s, Present(frame), Present([Delimiter]));
    DeframePlainBytes(s, frame);
    assert s.pending + frame == frame;
    assert Present([Delimiter]) == [Some(Delimiter)];
    assert DeframeFrom(Split(s.frames, frame), [Some(Delimiter)]) == Split(s.frames + [frame], []) by {
      assert [Some(Delimiter)][..0] == [];
    }
    DeframePlainBytes(Split(s.frames + [frame], []), tail);
    assert [] + tail == tail;
  }

  /**
   * The converse of `DeframeShape`: reading the wire form of delimiter-free
   * frames and then a delimiter-free tail gives those frames back, with
   * the tail pending.
   */
  lemma {:induction false} DeframeJoined(frames: seq<seq<byte>>, tail: seq<byte>)
    requires DelimiterFree(frames) && Delimiter !in tail
    ensures Deframe(Present(Joined(frames) + tail)) == Split(frames, tail)
    decreases |frames|
  {
    if frames == [] {
      assert Joined(frames) + tail == tail;
      DeframePlainBytes(Start, tail);
    } else {
      var init := frames[..|frames| - 1];
      var last := frames[|frames| - 1];
      assert DelimiterFree(init) by {
        forall i | 0 <= i < |init| ensures Delimiter !in init[i] {
          assert init[i] == frames[i];
        }
      }
      DeframeJoined(init, []);
      assert Joined(init) + [] == Joined(init);
      assert Joined(frames) + tail == Joined(init) + (last + [Delimiter] + tail);
      PresentAppend(Joined(init), last + [Delimiter] + tail);
      DeframeFromAppend(Start, Present(Joined(init)), Present(last + [Delimiter] + tail));
      DeframeOneFrame(Split(init, []), last, tail);
      assert init + [last] == frames;
    }
  }

  /** Timeouts are invisible: only the bytes received decide the frames. */
  lemma DeframeIgnoresTimeouts(input: seq<Option<byte>>)
    ensures Deframe(input) == Deframe(Present(Received(input)))
  {
    DeframeShape(input);
    DeframeJoined(Deframe(input).frames, Deframe(input).pending);
  }

  /** With no delimiter received, no frame is produced. */
  lemma NoDelimiterNoFrame(input: seq<Option<byte>>)
    requires CountDelimiters(input) == 0
    ensures Deframe(input).frames == []
  {
    DeframeShape(input);
  }

  /** Frames, once completed, stay completed: later reads only add frames. */
  lemma {:induction false} DeframeFramesGrow(s: Split, input: seq<Option<byte>>)
    ensures |s.frames| <= |DeframeFrom(s, input).frames|
    ensures DeframeFrom(s, input).frames[..|s.frames|] == s.frames
    decreases |input|
  {
    if input != [] {
      DeframeFramesGrow(s, input[..|input| - 1]);
    }
  }

  /** The frames of a prefix of the reads are a prefix of the frames of all of them. */
  lemma DeframePrefix(input: seq<Option<byte>>, i: nat)
    requires i <= |input|
    ensures |Deframe(input[..i]).frames| <= |Deframe(input).frames|
    ensures Deframe(input).frames[..|Deframe(input[..i]).frames|] == Deframe(input[..i]).frames
  {
    assert input[..i] + input[i..] == input;
    DeframeFromAppend(Start, input[..i], input[i..]);
    DeframeFramesGrow(Deframe(input[..i]), input[i..]);
  }
}

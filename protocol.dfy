/**
 * The serial protocol of the sound level meter, as the logger and both
 * diagnostic tools read it: bytes, the 0xA5 frame delimiter, the nibble
 * helpers, the packed-BCD noise level and the lowercase hex rendering of a
 * frame (Python's `bytes.hex()` and `f"{b:02x}"`).
 */
module Protocol {

  /** One octet read from the serial port. */
  newtype byte = x: int | 0 <= x < 256

  datatype Option<T> = None | Some(value: T)

  datatype Result<T, E> = Ok(value: T) | Err(error: E)

  /** The byte that ends every frame; it is never part of a frame. */
  const Delimiter: byte := 0xA5

  /** The key byte of the noise-level frame. */
  const NoiseKey: byte := 0x0D

  // ---------------------------------------------------------------------
  // Nibbles
  // ---------------------------------------------------------------------

  /**
   * `get_high_nibble`: `(byte & 0xF0) >> 4`, which on an octet is the
   * quotient by 16 (`NibblesAreMasks`).
   */
  function HighNibble(b: byte): (n: int)
    ensures 0 <= n < 16
  {
    b as int / 16
  }

  /** `get_low_nibble`: `byte & 0x0F`, the remainder by 16. */
  function LowNibble(b: byte): (n: int)
    ensures 0 <= n < 16
  {
    b as int % 16
  }

  /** On every octet, the nibble helpers compute exactly the source's masks and shift. */
  lemma NibblesAreMasks(x: bv8)
    ensures HighNibble(x as int as byte) == ((x & 0xF0) >> 4) as int
    ensures LowNibble(x as int as byte) == (x & 0x0F) as int
  {
    MasksAreDivMod(x);
    DivModToInt(x);
  }

  lemma MasksAreDivMod(x: bv8)
    ensures (x & 0xF0) >> 4 == x / 16
    ensures x & 0x0F == x % 16
  {
  }

  lemma DivModToInt(x: bv8)
    ensures (x / 16) as int == x as int / 16
    ensures (x % 16) as int == x as int % 16
  {
  }

  /** A byte is its high nibble times sixteen plus its low nibble. */
  lemma NibbleSplit(b: byte)
    ensures 0 <= HighNibble(b) < 16 && 0 <= LowNibble(b) < 16
    ensures b as int == 16 * HighNibble(b) + LowNibble(b)
  {
  }

  /** The byte whose nibbles are `hi` and `lo`. */
  function FromNibbles(hi: int, lo: int): (b: byte)
    requires 0 <= hi < 16 && 0 <= lo < 16
    ensures HighNibble(b) == hi && LowNibble(b) == lo
  {
    var b := (16 * hi + lo) as byte;
    NibbleSplit(b);
    b
  }

  // ---------------------------------------------------------------------
  // Packed-BCD noise level, in tenths of a dB
  // ---------------------------------------------------------------------

  /**
   * The noise level carried by the two payload bytes of a 0x0D frame, in
   * tenths of a dB: hundreds and tens in `b1`, ones and tenths in `b2`.
   * No digit is checked, so a nibble above 9 gives a value outside 0..9999.
   */
  function NoiseTenths(b1: byte, b2: byte): (t: int)
    ensures 0 <= t <= 15 * 1111
  {
    1000 * HighNibble(b1) + 100 * LowNibble(b1) + 10 * HighNibble(b2) + LowNibble(b2)
  }

  /** Both nibbles of `b` are decimal digits. */
  predicate IsBcd(b: byte)
  {
    HighNibble(b) <= 9 && LowNibble(b) <= 9
  }

  /** A BCD payload decodes to 0.0 .. 999.9 dB. */
  lemma BcdRange(b1: byte, b2: byte)
    requires IsBcd(b1) && IsBcd(b2)
    ensures 0 <= NoiseTenths(b1, b2) <= 9999
  {
  }

  /** The two BCD bytes that carry `t` tenths of a dB. */
  function BcdEncode(t: int): (p: (byte, byte))
    requires 0 <= t <= 9999
    ensures IsBcd(p.0) && IsBcd(p.1)
  {
    var tens := t / 10;
    var hundreds := tens / 10;
    (FromNibbles(hundreds / 10, hundreds % 10), FromNibbles(tens % 10, t % 10))
  }

  /** Encoding a level and decoding it gives the level back. */
  lemma BcdDecodeEncode(t: int)
    requires 0 <= t <= 9999
    ensures NoiseTenths(BcdEncode(t).0, BcdEncode(t).1) == t
  {
    var tens := t / 10;
    var hundreds := tens / 10;
    var p := BcdEncode(t);
    assert HighNibble(p.0) == hundreds / 10 && LowNibble(p.0) == hundreds % 10;
    assert HighNibble(p.1) == tens % 10 && LowNibble(p.1) == t % 10;
    assert t == 10 * tens + t % 10;
    assert tens == 10 * hundreds + tens % 10;
    assert hundreds == 10 * (hundreds / 10) + hundreds % 10;
  }

  /** Decoding a BCD payload and encoding the level gives the payload back. */
  lemma BcdEncodeDecode(b1: byte, b2: byte)
    requires IsBcd(b1) && IsBcd(b2)
    ensures BcdEncode(NoiseTenths(b1, b2)) == (b1, b2)
  {
    var t := NoiseTenths(b1, b2);
    NibbleSplit(b1);
    NibbleSplit(b2);
    var p := BcdEncode(t);
    var tens := t / 10;
    var hundreds := tens / 10;
    assert t % 10 == LowNibble(b2) && tens == 100 * HighNibble(b1) + 10 * LowNibble(b1) + HighNibble(b2);
    assert tens % 10 == HighNibble(b2) && hundreds == 10 * HighNibble(b1) + LowNibble(b1);
    assert hundreds / 10 == HighNibble(b1) && hundreds % 10 == LowNibble(b1);
    NibbleSplit(p.0);
    NibbleSplit(p.1);
  }

  /** Distinct BCD payloads carry distinct levels. */
  lemma BcdInjective(a1: byte, a2: byte, b1: byte, b2: byte)
    requires IsBcd(a1) && IsBcd(a2) && IsBcd(b1) && IsBcd(b2)
    requires NoiseTenths(a1, a2) == NoiseTenths(b1, b2)
    ensures a1 == b1 && a2 == b2
  {
    BcdEncodeDecode(a1, a2);
    BcdEncodeDecode(b1, b2);
  }

  /** Python's IndexError on `msg[index]`. */
  datatype IndexError = IndexError(index: nat)

  /**
   * The level of a 0x0D frame `msg` (key byte included). The code reads
   * `msg[1]` and then `msg[2]`, so a frame shorter than three bytes raises
   * at the first index it lacks; bytes after `msg[2]` are not read.
   */
  function DecodeNoise(msg: seq<byte>): (r: Result<int, IndexError>)
    requires |msg| >= 1 && msg[0] == NoiseKey
    ensures r.Ok? <==> |msg| >= 3
    ensures r.Err? ==> r.error.index == |msg|
  {
    if |msg| < 2 then Err(IndexError(1))
    else if |msg| < 3 then Err(IndexError(2))
    else Ok(NoiseTenths(msg[1], msg[2]))
  }

  /** Bytes after the payload do not change the decoded level. */
  lemma DecodeNoiseIgnoresTail(msg: seq<byte>, tail: seq<byte>)
    requires |msg| >= 3 && msg[0] == NoiseKey
    ensures DecodeNoise(msg + tail) == DecodeNoise(msg)
  {
    assert (msg + tail)[1] == msg[1] && (msg + tail)[2] == msg[2];
  }

  /** A 0x0D frame built from an encoded level decodes to that level. */
  lemma DecodeNoiseOfEncoded(t: int, tail: seq<byte>)
    requires 0 <= t <= 9999
    ensures DecodeNoise([NoiseKey, BcdEncode(t).0, BcdEncode(t).1] + tail) == Ok(t)
  {
    var msg := [NoiseKey, BcdEncode(t).0, BcdEncode(t).1];
    DecodeNoiseIgnoresTail(msg, tail);
    BcdDecodeEncode(t);
  }

  // ---------------------------------------------------------------------
  // Lowercase hex rendering
  // ---------------------------------------------------------------------

  predicate IsHexDigit(c: char)
  {
    '0' <= c <= '9' || 'a' <= c <= 'f'
  }

  /** The value of a lowercase hex digit. */
  function HexValue(c: char): (n: int)
    requires IsHexDigit(c)
    ensures 0 <= n < 16
  {
    if c <= '9' then c as int - '0' as int else c as int - 'a' as int + 10
  }

  /** The lowercase hex digit of `n`, one of `0123456789abcdef`. */
  function HexDigit(n: int): (c: char)
    requires 0 <= n < 16
    ensures IsHexDigit(c) && HexValue(c) == n
  {
    if n < 10 then ('0' as int + n) as char else ('a' as int + n - 10) as char
  }

  /** The two lowercase hex digits of a byte, as `f"{b:02x}"` writes them. */
  function Hex2(b: byte): (s: string)
    ensures |s| == 2 && IsHexDigit(s[0]) && IsHexDigit(s[1])
  {
    [HexDigit(HighNibble(b)), HexDigit(LowNibble(b))]
  }

  /** Reading the two digits back gives the byte. */
  lemma Hex2RoundTrip(b: byte)
    ensures 16 * HexValue(Hex2(b)[0]) + HexValue(Hex2(b)[1]) == b as int
  {
    NibbleSplit(b);
  }

  /** `msg.hex()`: two lowercase digits per byte, no separator. */
  function Hex(msg: seq<byte>): (s: string)
    ensures |s| == 2 * |msg|
    ensures forall i :: 0 <= i < |s| ==> IsHexDigit(s[i])
  {
    if msg == [] then "" else Hex2(msg[0]) + Hex(msg[1..])
  }

  /** The bytes written by a string of lowercase hex digit pairs. */
  function ParseHex(s: string): (msg: seq<byte>)
    requires |s| % 2 == 0
    requires forall i :: 0 <= i < |s| ==> IsHexDigit(s[i])
    ensures |msg| == |s| / 2
  {
    if s == [] then []
    else [(16 * HexValue(s[0]) + HexValue(s[1])) as byte] + ParseHex(s[2..])
  }

  /** `Hex` loses nothing: parsing its output gives the frame back. */
  lemma {:induction false} HexRoundTrip(msg: seq<byte>)
    ensures ParseHex(Hex(msg)) == msg
  {
    if msg != [] {
      var s := Hex(msg);
      assert s[..2] == Hex2(msg[0]) && s[2..] == Hex(msg[1..]);
      Hex2RoundTrip(msg[0]);
      HexRoundTrip(msg[1..]);
    }
  }
}

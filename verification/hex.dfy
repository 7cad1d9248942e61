/** `encodeHex` (`app/css/fetch.js`, and the same function in
    `util/fonts.js`): bytes as lower-case hexadecimal, two digits per
    byte, as `byte.toString(16).padStart(2, "0")` joined. A decoder is
    given alongside so that the encoding can be shown to lose nothing. */
module Hex {
  import opened Common

  /** An element of a `Uint8Array`. */
  type Byte = x: int | 0 <= x < 256

  /** A lower-case hexadecimal digit. */
  predicate IsHexDigit(c: char)
  {
    '0' <= c <= '9' || 'a' <= c <= 'f'
  }

  /** The digit for a value below 16. */
  function DigitOf(d: nat): (c: char)
    requires d < 16
    ensures IsHexDigit(c)
  {
    if d < 10 then ('0' as int + d) as char else ('a' as int + d - 10) as char
  }

  /** The value of a lower-case digit, `None` for anything else. */
  function ValueOf(c: char): (r: Option<nat>)
    ensures r.Some? <==> IsHexDigit(c)
    ensures r.Some? ==> r.value < 16 && DigitOf(r.value) == c
  {
    if '0' <= c <= '9' then Some(c as int - '0' as int)
    else if 'a' <= c <= 'f' then Some(c as int - 'a' as int + 10)
    else None
  }

  lemma DigitRoundTrip(d: nat)
    requires d < 16
    ensures ValueOf(DigitOf(d)) == Some(d)
  {
  }

  /** The number a string of digits stands for, most significant first. */
  function HexValue(s: string): nat
    requires forall i :: 0 <= i < |s| ==> IsHexDigit(s[i])
  {
    if s == [] then 0 else 16 * HexValue(s[..|s| - 1]) + ValueOf(Last(s)).value
  }

  /** `n.toString(16)`: at least one digit, all lower-case, no leading
      zero unless the number is 0 itself, and the digits stand for `n`. */
  function ToHex(n: nat): (r: string)
    ensures |r| >= 1
    ensures forall i :: 0 <= i < |r| ==> IsHexDigit(r[i])
    ensures |r| > 1 ==> r[0] != '0'
    ensures HexValue(r) == n
    decreases n
  {
    if n < 16 then
      DigitRoundTrip(n);
      [DigitOf(n)]
    else
      var r := ToHex(n / 16) + [DigitOf(n % 16)];
      DigitRoundTrip(n % 16);
      assert r[..|r| - 1] == ToHex(n / 16);
      r
  }

  /** `s.padStart(len, [fill])`. */
  function PadStart(s: string, len: nat, fill: char): (r: string)
    ensures |r| == if |s| >= len then |s| else len
    ensures r[|r| - |s|..] == s
    ensures forall i :: 0 <= i < |r| - |s| ==> r[i] == fill
  {
    if |s| >= len then s else seq(len - |s|, _ => fill) + s
  }

  /** The high nibble of a byte. */
  function Hi(b: Byte): (h: nat)
    ensures h < 16 && 16 * h <= b < 16 * h + 16
  {
    b / 16
  }

  /** The low nibble of a byte. */
  function Lo(b: Byte): (l: nat)
    ensures l < 16 && b == 16 * Hi(b) + l
  {
    b % 16
  }

  /** Splitting a byte into its two nibbles and back. */
  lemma Nibbles(h: nat, l: nat)
    requires h < 16 && l < 16
    ensures Hi(h * 16 + l) == h && Lo(h * 16 + l) == l
  {
  }

  /** `byte.toString(16)` has one digit below 16 and two from there on. */
  lemma ToHexByte(b: Byte)
    ensures b < 16 ==> ToHex(b) == [DigitOf(b)]
    ensures b >= 16 ==> ToHex(b) == [DigitOf(Hi(b)), DigitOf(Lo(b))]
  {
    if b >= 16 {
      assert 1 <= Hi(b) < 16;
      assert ToHex(Hi(b)) == [DigitOf(Hi(b))];
    }
  }

  lemma PadByte(b: Byte)
    ensures PadStart(ToHex(b), 2, '0') == [DigitOf(Hi(b)), DigitOf(Lo(b))]
  {
    ToHexByte(b);
    if b < 16 {
      assert Hi(b) == 0 && Lo(b) == b;
      var r := PadStart([DigitOf(b)], 2, '0');
      assert r == PadStart(['0', DigitOf(b)], 2, '0');
    }
  }

  /** One byte: exactly two digits, the high nibble then the low one, so
      bytes below 16 get a leading `0`. */
  function ByteHex(b: Byte): (r: string)
    ensures r == [DigitOf(Hi(b)), DigitOf(Lo(b))]
  {
    PadByte(b);
    PadStart(ToHex(b), 2, '0')
  }

  /** `r` holds two digits per byte of `bytes`, in order, the high
      nibble first. */
  predicate DigitPairs(r: string, bytes: seq<Byte>)
  {
    && |r| == 2 * |bytes|
    && forall i :: 0 <= i < |bytes| ==>
         r[2 * i] == DigitOf(Hi(bytes[i])) && r[2 * i + 1] == DigitOf(Lo(bytes[i]))
  }

  /** Putting one byte's digits in front of the digits of the rest. */
  lemma DigitPairsCons(b: Byte, tail: seq<Byte>, rest: string)
    requires DigitPairs(rest, tail)
    ensures DigitPairs([DigitOf(Hi(b)), DigitOf(Lo(b))] + rest, [b] + tail)
  {
    var r := [DigitOf(Hi(b)), DigitOf(Lo(b))] + rest;
    var bytes := [b] + tail;
    forall i | 1 <= i < |bytes|
      ensures r[2 * i] == DigitOf(Hi(bytes[i])) && r[2 * i + 1] == DigitOf(Lo(bytes[i]))
    {
      assert bytes[i] == tail[i - 1];
      assert r[2 * i] == rest[2 * (i - 1)];
      assert r[2 * i + 1] == rest[2 * (i - 1) + 1];
    }
  }

  /** `encodeHex(buf)`: two lower-case digits per byte, in order, the
      high nibble first. */
  function EncodeHex(bytes: seq<Byte>): (r: string)
    ensures DigitPairs(r, bytes)
    ensures forall k :: 0 <= k < |r| ==> IsHexDigit(r[k])
  {
    if bytes == [] then []
    else
      var rest := EncodeHex(bytes[1..]);
      DigitPairsCons(bytes[0], bytes[1..], rest);
      assert [bytes[0]] + bytes[1..] == bytes;
      ByteHex(bytes[0]) + rest
  }

  /** The inverse: pairs of lower-case digits back to bytes; `None` for
      an odd length or any other character. */
  function DecodeHex(s: string): (r: Option<seq<Byte>>)
    ensures r.Some? ==> 2 * |r.value| == |s|
    decreases |s|
  {
    if s == [] then Some([])
    else if |s| < 2 || !IsHexDigit(s[0]) || !IsHexDigit(s[1]) then None
    else
      match DecodeHex(s[2..])
      case None => None
      case Some(rest) => Some([ValueOf(s[0]).value * 16 + ValueOf(s[1]).value] + rest)
  }

  /** A decodable string that is not empty starts with two digits. */
  lemma DecodeHexCons(s: string)
    requires s != [] && DecodeHex(s).Some?
    ensures |s| >= 2 && IsHexDigit(s[0]) && IsHexDigit(s[1]) && DecodeHex(s[2..]).Some?
    ensures DecodeHex(s).value == [ValueOf(s[0]).value * 16 + ValueOf(s[1]).value] + DecodeHex(s[2..]).value
  {
  }

  /** Decoding an encoding gives the bytes back. */
  lemma {:induction false} DecodeEncode(bytes: seq<Byte>)
    ensures DecodeHex(EncodeHex(bytes)) == Some(bytes)
  {
    if bytes != [] {
      var b := bytes[0];
      EncodeHexCons(b, bytes[1..]);
      DecodeEncode(bytes[1..]);
      DecodePair(Hi(b), Lo(b), EncodeHex(bytes[1..]), bytes[1..]);
      assert [b] + bytes[1..] == bytes;
    }
  }

  /** Decoding one more pair of digits in front. */
  lemma DecodePair(h: nat, l: nat, t: string, rest: seq<Byte>)
    requires h < 16 && l < 16 && DecodeHex(t) == Some(rest)
    ensures DecodeHex([DigitOf(h), DigitOf(l)] + t) == Some([h * 16 + l] + rest)
  {
    var s := [DigitOf(h), DigitOf(l)] + t;
    assert s[2..] == t;
    DigitRoundTrip(h);
    DigitRoundTrip(l);
  }

  /** Whatever decodes is the encoding of what it decodes to: lower-case
      hexadecimal of even length is exactly the image of `EncodeHex`. */
  lemma {:induction false} EncodeDecode(s: string)
    requires DecodeHex(s).Some?
    ensures EncodeHex(DecodeHex(s).value) == s
    decreases |s|
  {
    if s != [] {
      DecodeHexCons(s);
      EncodeDecode(s[2..]);
      EncodeDecodeStep(s);
    }
  }

  /** The inductive step of `EncodeDecode`: two digits in front. */
  lemma EncodeDecodeStep(s: string)
    requires s != [] && DecodeHex(s).Some? && DecodeHex(s[2..]).Some?
    requires EncodeHex(DecodeHex(s[2..]).value) == s[2..]
    ensures EncodeHex(DecodeHex(s).value) == s
  {
    DecodeHexCons(s);
    var h := ValueOf(s[0]).value;
    var l := ValueOf(s[1]).value;
    var rest := DecodeHex(s[2..]).value;
    PairStep(h, l, rest, s[2..]);
    assert DigitOf(h) == s[0] && DigitOf(l) == s[1];
    TwoAndRest(s);
    assert EncodeHex([h * 16 + l] + rest) == s;
  }

  /** Encoding one more byte, given by its nibbles, in front. */
  lemma PairStep(h: nat, l: nat, rest: seq<Byte>, t: string)
    requires h < 16 && l < 16 && EncodeHex(rest) == t
    ensures EncodeHex([h * 16 + l] + rest) == [DigitOf(h), DigitOf(l)] + t
  {
    Nibbles(h, l);
    EncodeHexCons(h * 16 + l, rest);
  }

  lemma TwoAndRest(s: string)
    requires |s| >= 2
    ensures s == [s[0], s[1]] + s[2..]
  {
  }

  lemma EncodeHexCons(b: Byte, tail: seq<Byte>)
    ensures EncodeHex([b] + tail) == [DigitOf(Hi(b)), DigitOf(Lo(b))] + EncodeHex(tail)
  {
    assert ([b] + tail)[1..] == tail;
  }

  /** Different byte strings never share an encoding. */
  lemma EncodeInjective(a: seq<Byte>, b: seq<Byte>)
    requires EncodeHex(a) == EncodeHex(b)
    ensures a == b
  {
    DecodeEncode(a);
    DecodeEncode(b);
  }
}

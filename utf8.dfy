/**
 * UTF-8 as Node's `Buffer` uses it: `Buffer.from(string)` encodes, and
 * `buf.toString('utf8')` decodes with the WHATWG decoder, which turns
 * each maximal ill-formed subpart into one U+FFFD.
 */
module Utf8 {
  type Byte = x: int | 0 <= x < 256

  /** The bytes of one code point. */
  function EncodeChar(c: char): (bs: seq<Byte>)
    ensures 1 <= |bs| <= 4
  {
    var cp := c as int;
    if cp < 0x80 then [cp]
    else if cp < 0x800 then [0xC0 + cp / 64, 0x80 + cp % 64]
    else if cp < 0x10000 then [0xE0 + cp / 4096, 0x80 + (cp / 64) % 64, 0x80 + cp % 64]
    else [0xF0 + cp / 262144, 0x80 + (cp / 4096) % 64, 0x80 + (cp / 64) % 64, 0x80 + cp % 64]
  }

  /** `Buffer.from(s)`. */
  function Encode(s: string): (bs: seq<Byte>)
    ensures |bs| >= |s|
  {
    if s == [] then [] else EncodeChar(s[0]) + Encode(s[1..])
  }

  predicate IsCont(b: Byte, lo: int, hi: int) {
    lo <= b <= hi
  }

  const Replacement: char := 0xFFFD as char

  /**
   * One step of the decoder: the next character and how many bytes it
   * takes.  A lead byte that cannot start a sequence, or a sequence cut
   * short by a byte out of range or by the end of the input, gives
   * U+FFFD for the bytes read so far; the offending byte is read again.
   */
  function Step(bs: seq<Byte>): (r: (char, nat))
    requires bs != []
    ensures 1 <= r.1 <= |bs|
  {
    var b: int := bs[0];
    if b < 0x80 then (b as char, 1)
    else if 0xC2 <= b <= 0xDF then
      if |bs| > 1 && IsCont(bs[1], 0x80, 0xBF) then (((b - 0xC0) * 64 + (bs[1] as int - 0x80)) as char, 2)
      else (Replacement, 1)
    else if 0xE0 <= b <= 0xEF then
      var lo := if b == 0xE0 then 0xA0 else 0x80;
      var hi := if b == 0xED then 0x9F else 0xBF;
      if |bs| > 1 && IsCont(bs[1], lo, hi) then
        if |bs| > 2 && IsCont(bs[2], 0x80, 0xBF) then
          (((b - 0xE0) * 4096 + (bs[1] as int - 0x80) * 64 + (bs[2] as int - 0x80)) as char, 3)
        else (Replacement, 2)
      else (Replacement, 1)
    else if 0xF0 <= b <= 0xF4 then
      var lo := if b == 0xF0 then 0x90 else 0x80;
      var hi := if b == 0xF4 then 0x8F else 0xBF;
      if |bs| > 1 && IsCont(bs[1], lo, hi) then
        if |bs| > 2 && IsCont(bs[2], 0x80, 0xBF) then
          if |bs| > 3 && IsCont(bs[3], 0x80, 0xBF) then
            (((b - 0xF0) * 262144 + (bs[1] as int - 0x80) * 4096 + (bs[2] as int - 0x80) * 64 + (bs[3] as int - 0x80)) as char, 4)
          else (Replacement, 3)
        else (Replacement, 2)
      else (Replacement, 1)
    else (Replacement, 1)
  }

  /** `buf.toString('utf8')`. */
  function Decode(bs: seq<Byte>): (s: string)
    ensures |s| <= |bs|
    decreases |bs|
  {
    if bs == [] then []
    else
      var (c, n) := Step(bs);
      [c] + Decode(bs[n..])
  }

  lemma StepTwo(cp: int, bs: seq<Byte>)
    requires 0x80 <= cp < 0x800 && |bs| >= 2
    requires bs[0] == 0xC0 + cp / 64 && bs[1] == 0x80 + cp % 64
    ensures Step(bs) == (cp as char, 2)
  {
    assert 0xC2 <= bs[0] <= 0xDF;
  }

  lemma StepThree(cp: int, bs: seq<Byte>)
    requires 0x800 <= cp < 0x10000 && (cp < 0xD800 || cp >= 0xE000) && |bs| >= 3
    requires bs[0] == 0xE0 + cp / 4096 && bs[1] == 0x80 + (cp / 64) % 64 && bs[2] == 0x80 + cp % 64
    ensures Step(bs) == (cp as char, 3)
  {
    var q := cp / 64;
    assert cp == q * 64 + cp % 64;
    assert q == (cp / 4096) * 64 + q % 64;
    assert bs[0] == 0xE0 ==> bs[1] >= 0xA0;
    assert bs[0] == 0xED ==> bs[1] <= 0x9F;
  }

  lemma StepFour(cp: int, bs: seq<Byte>)
    requires 0x10000 <= cp < 0x110000 && |bs| >= 4
    requires bs[0] == 0xF0 + cp / 262144 && bs[1] == 0x80 + (cp / 4096) % 64
    requires bs[2] == 0x80 + (cp / 64) % 64 && bs[3] == 0x80 + cp % 64
    ensures Step(bs) == (cp as char, 4)
  {
    var q := cp / 64;
    var p := cp / 4096;
    assert cp == q * 64 + cp % 64;
    assert q == p * 64 + q % 64;
    assert p == (cp / 262144) * 64 + p % 64;
    assert bs[0] == 0xF0 ==> bs[1] >= 0x90;
    assert bs[0] == 0xF4 ==> bs[1] <= 0x8F;
  }

  /** The decoder reads an encoded character back whole, whatever follows it. */
  lemma StepEncodeChar(c: char, rest: seq<Byte>)
    ensures Step(EncodeChar(c) + rest) == (c, |EncodeChar(c)|)
  {
    var cp := c as int;
    var bs := EncodeChar(c) + rest;
    if cp < 0x80 {
    } else if cp < 0x800 {
      StepTwo(cp, bs);
    } else if cp < 0x10000 {
      StepThree(cp, bs);
    } else {
      StepFour(cp, bs);
    }
  }

  /** Decoding an encoding gives the text back. */
  lemma {:induction false} DecodeEncode(s: string)
    ensures Decode(Encode(s)) == s
  {
    if s != [] {
      var bs := Encode(s);
      var head := EncodeChar(s[0]);
      StepEncodeChar(s[0], Encode(s[1..]));
      assert bs[|head|..] == Encode(s[1..]);
      DecodeEncode(s[1..]);
    }
  }

  /** Different texts have different encodings. */
  lemma EncodeInjective(a: string, b: string)
    ensures Encode(a) == Encode(b) <==> a == b
  {
    if Encode(a) == Encode(b) {
      DecodeEncode(a);
      DecodeEncode(b);
    }
  }

  /** The encoding of a concatenation is the concatenation of the encodings. */
  lemma {:induction false} EncodeAppend(a: string, b: string)
    ensures Encode(a + b) == Encode(a) + Encode(b)
  {
    if a != [] {
      assert (a + b)[0] == a[0] && (a + b)[1..] == a[1..] + b;
      EncodeAppend(a[1..], b);
    } else {
      assert a + b == b;
    }
  }

  /** ASCII text encodes one byte per character. */
  lemma {:induction false} EncodeAscii(s: string)
    requires forall i :: 0 <= i < |s| ==> s[i] as int < 0x80
    ensures |Encode(s)| == |s|
    ensures forall i :: 0 <= i < |s| ==> Encode(s)[i] == s[i] as int
  {
    if s != [] {
      EncodeAscii(s[1..]);
    }
  }
}

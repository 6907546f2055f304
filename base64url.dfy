/**
 * Base64 (section 4 of RFC 4648) as `buf.toString('base64')` writes it,
 * and the URL-safe unpadded form the token code derives from it by
 * textual replacement (section 5 of RFC 4648, without the padding as in
 * Appendix C of RFC 7515).
 */
module Base64Url {
  import opened Wrappers
  import opened Utf8

  /** The character of a 6-bit value in the standard alphabet. */
  function StdChar(v: nat): (c: char)
    requires v < 64
    ensures c != '=' && c != '-' && c != '_'
    ensures (c == '+' <==> v == 62) && (c == '/' <==> v == 63)
  {
    if v < 26 then ('A' as int + v) as char
    else if v < 52 then ('a' as int + v - 26) as char
    else if v < 62 then ('0' as int + v - 52) as char
    else if v == 62 then '+'
    else '/'
  }

  /** The 6-bit value of a character of the standard alphabet. */
  function StdValue(c: char): (v: Option<nat>)
    ensures v.Some? ==> v.value < 64 && StdChar(v.value) == c
  {
    if 'A' <= c <= 'Z' then Some(c as int - 'A' as int)
    else if 'a' <= c <= 'z' then Some(c as int - 'a' as int + 26)
    else if '0' <= c <= '9' then Some(c as int - '0' as int + 52)
    else if c == '+' then Some(62)
    else if c == '/' then Some(63)
    else None
  }

  lemma StdValueOfChar(v: nat)
    requires v < 64
    ensures StdValue(StdChar(v)) == Some(v)
  {
  }

  /** The four 6-bit values of three bytes. */
  function Group(b0: Byte, b1: Byte, b2: Byte): (g: seq<nat>)
    ensures |g| == 4 && SixBits(g)
  {
    [b0 / 4, (b0 % 4) * 16 + b1 / 16, (b1 % 16) * 4 + b2 / 64, b2 % 64]
  }

  /** The three bytes of four 6-bit values. */
  function Ungroup(a: nat, b: nat, c: nat, d: nat): (bs: seq<Byte>)
    requires a < 64 && b < 64 && c < 64 && d < 64
    ensures |bs| == 3
  {
    [a * 4 + b / 16, (b % 16) * 16 + c / 4, (c % 4) * 64 + d]
  }

  /** The 6-bit groups of a byte string, three bytes to four groups, a short last group zero-filled. */
  function Sextets(bs: seq<Byte>): (v: seq<nat>)
    ensures |v| % 4 != 1
    ensures |v| == 0 <==> |bs| == 0
    decreases |bs|
  {
    if |bs| == 0 then []
    else if |bs| == 1 then Group(bs[0], 0, 0)[..2]
    else if |bs| == 2 then Group(bs[0], bs[1], 0)[..3]
    else Group(bs[0], bs[1], bs[2]) + Sextets(bs[3..])
  }

  /** Every group holds six bits. */
  predicate SixBits(v: seq<nat>) {
    forall i :: 0 <= i < |v| ==> v[i] < 64
  }

  lemma {:induction false} SextetsSixBits(bs: seq<Byte>)
    ensures SixBits(Sextets(bs))
    decreases |bs|
  {
    if |bs| >= 3 {
      SextetsSixBits(bs[3..]);
      assert Sextets(bs) == Group(bs[0], bs[1], bs[2]) + Sextets(bs[3..]);
    }
  }

  /** The standard-alphabet characters of 6-bit groups. */
  function Chars(v: seq<nat>): (s: string)
    requires SixBits(v)
    ensures |s| == |v|
  {
    seq(|v|, i requires 0 <= i < |v| => StdChar(v[i]))
  }

  /** `buf.toString('base64')`: the characters of the groups, then `=` up to a multiple of four. */
  function StdEncode(bs: seq<Byte>): (s: string)
    ensures |s| % 4 == 0
  {
    SextetsSixBits(bs);
    var v := Sextets(bs);
    Chars(v) + Repeat('=', PadLength(|v|))
  }

  /** `s.replace(/x/g, '')`. */
  function RemoveAll(s: string, x: char): (r: string)
    ensures forall i :: 0 <= i < |r| ==> r[i] != x
  {
    if s == [] then [] else (if s[0] == x then [] else [s[0]]) + RemoveAll(s[1..], x)
  }

  /** `s.replace(/x/g, y)` for single characters. */
  function ReplaceAll(s: string, x: char, y: char): (r: string)
    ensures |r| == |s| && forall i :: 0 <= i < |s| ==> r[i] == if s[i] == x then y else s[i]
  {
    seq(|s|, i requires 0 <= i < |s| => if s[i] == x then y else s[i])
  }

  /** `base64UrlEncode` on bytes: the standard encoding with `=` dropped, `+` to `-` and `/` to `_`. */
  function UrlEncode(bs: seq<Byte>): string {
    ReplaceAll(ReplaceAll(RemoveAll(StdEncode(bs), '='), '+', '-'), '/', '_')
  }

  /** The value of a 4-character group, or `None` for a character outside the alphabet. */
  function Quad(s: string): Option<(nat, nat, nat, nat)>
    requires |s| == 4
  {
    var a := StdValue(s[0]);
    var b := StdValue(s[1]);
    var c := StdValue(s[2]);
    var d := StdValue(s[3]);
    if a.None? || b.None? then None
    else if s[2] == '=' && s[3] == '=' then Some((a.value, b.value, 0, 0))
    else if c.None? then None
    else if s[3] == '=' then Some((a.value, b.value, c.value, 0))
    else if d.None? then None
    else Some((a.value, b.value, c.value, d.value))
  }

  /**
   * Strict decoding of padded standard base64: groups of four, `=` only
   * at the end of the last group.
   */
  function StdDecode(s: string): (r: Option<seq<Byte>>)
    decreases |s|
  {
    if s == [] then Some([])
    else if |s| < 4 then None
    else
      var q := Quad(s[..4]);
      if q.None? then None
      else
        var (a, b, c, d) := q.value;
        var bytes := Ungroup(a, b, c, d);
        if s[2] == '=' then (if |s| == 4 then Some(bytes[..1]) else None)
        else if s[3] == '=' then (if |s| == 4 then Some(bytes[..2]) else None)
        else
          var rest := StdDecode(s[4..]);
          if rest.None? then None else Some(bytes + rest.value)
  }

  /** `(4 - (n % 4)) % 4`, the number of `=` appended before decoding. */
  function PadLength(n: nat): (p: nat)
    ensures p < 4 && (n + p) % 4 == 0
  {
    (4 - n % 4) % 4
  }

  function Repeat(c: char, n: nat): (r: string)
    ensures |r| == n && forall i :: 0 <= i < n ==> r[i] == c
  {
    seq(n, i => c)
  }

  /** `base64UrlDecode` before the UTF-8 decoding: back to the standard alphabet, re-padded, decoded. */
  function UrlDecode(s: string): Option<seq<Byte>> {
    var normalized := ReplaceAll(ReplaceAll(s, '-', '+'), '_', '/');
    StdDecode(normalized + Repeat('=', PadLength(|normalized|)))
  }

  /** The characters of the URL-safe alphabet; `.` is not one of them. */
  predicate UrlChar(c: char) {
    'A' <= c <= 'Z' || 'a' <= c <= 'z' || '0' <= c <= '9' || c == '-' || c == '_'
  }

  /** A 6-bit value in the URL-safe alphabet. */
  function UrlCharOf(v: nat): (c: char)
    requires v < 64
    ensures UrlChar(c)
  {
    if v == 62 then '-' else if v == 63 then '_' else StdChar(v)
  }

  /** The URL-safe characters of 6-bit groups. */
  function UrlChars(v: seq<nat>): (s: string)
    requires SixBits(v)
    ensures |s| == |v|
  {
    seq(|v|, i requires 0 <= i < |v| => UrlCharOf(v[i]))
  }

  lemma {:induction false} RemoveAllAppend(a: string, b: string, x: char)
    ensures RemoveAll(a + b, x) == RemoveAll(a, x) + RemoveAll(b, x)
  {
    if a == [] {
      assert a + b == b;
    } else {
      assert (a + b)[0] == a[0] && (a + b)[1..] == a[1..] + b;
      RemoveAllAppend(a[1..], b, x);
    }
  }

  lemma {:induction false} RemoveAllNone(a: string, x: char)
    requires forall i :: 0 <= i < |a| ==> a[i] != x
    ensures RemoveAll(a, x) == a
  {
    if a != [] {
      RemoveAllNone(a[1..], x);
    }
  }

  lemma {:induction false} RemoveAllOnly(a: string, x: char)
    requires forall i :: 0 <= i < |a| ==> a[i] == x
    ensures RemoveAll(a, x) == []
  {
    if a != [] {
      RemoveAllOnly(a[1..], x);
    }
  }

  /**
   * `base64UrlEncode` writes the URL-safe characters of the 6-bit groups
   * and nothing else: no padding, and never `=`, `+`, `/` or `.`.
   */
  lemma UrlEncodeText(bs: seq<Byte>)
    ensures SixBits(Sextets(bs)) && UrlEncode(bs) == UrlChars(Sextets(bs))
    ensures forall i :: 0 <= i < |UrlEncode(bs)| ==> UrlChar(UrlEncode(bs)[i])
  {
    SextetsSixBits(bs);
    var v := Sextets(bs);
    var pad := Repeat('=', PadLength(|v|));
    RemoveAllAppend(Chars(v), pad, '=');
    RemoveAllNone(Chars(v), '=');
    RemoveAllOnly(pad, '=');
    assert RemoveAll(StdEncode(bs), '=') == Chars(v);
  }

  /** Undoing the URL alphabet gives the standard characters back. */
  lemma Normalized(v: seq<nat>)
    requires SixBits(v)
    ensures ReplaceAll(ReplaceAll(UrlChars(v), '-', '+'), '_', '/') == Chars(v)
  {
  }

  lemma CharsAppend(g: seq<nat>, v: seq<nat>)
    requires SixBits(g) && SixBits(v)
    ensures SixBits(g + v) && Chars(g + v) == Chars(g) + Chars(v)
  {
    assert SixBits(g + v);
    assert Chars(g + v) == Chars(g) + Chars(v);
  }

  lemma Split16(x: nat, y: nat)
    requires y < 16
    ensures (x * 16 + y) / 16 == x && (x * 16 + y) % 16 == y
  {
  }

  lemma Split4(x: nat, y: nat)
    requires y < 4
    ensures (x * 4 + y) / 4 == x && (x * 4 + y) % 4 == y
  {
  }

  /** The bytes of a group come back from its 6-bit values. */
  lemma GroupValues(b0: Byte, b1: Byte, b2: Byte)
    ensures var g := Group(b0, b1, b2); Ungroup(g[0], g[1], g[2], g[3]) == [b0, b1, b2]
    ensures b2 == 0 ==> Group(b0, b1, b2)[3] == 0
    ensures b1 == 0 && b2 == 0 ==> Group(b0, b1, b2)[2] == 0
  {
    Split16(b0 % 4, b1 / 16);
    Split4(b1 % 16, b2 / 64);
  }

  /** A group of four standard characters, `=` only at its end, reads as its values. */
  lemma QuadOf(s: string, a: nat, b: nat, c: nat, d: nat)
    requires |s| == 4 && a < 64 && b < 64 && c < 64 && d < 64
    requires s[0] == StdChar(a) && s[1] == StdChar(b)
    requires s[2] == '=' || s[2] == StdChar(c)
    requires s[3] == '=' || s[3] == StdChar(d)
    requires s[2] == '=' ==> s[3] == '=' && c == 0
    requires s[3] == '=' ==> d == 0
    ensures Quad(s) == Some((a, b, c, d))
  {
    StdValueOfChar(a);
    StdValueOfChar(b);
    StdValueOfChar(c);
    StdValueOfChar(d);
  }

  /** A final group of one byte, padded with `==`, decodes to that byte. */
  lemma DecodeOne(bs: seq<Byte>)
    requires |bs| == 1
    ensures StdDecode(StdEncode(bs)) == Some(bs)
  {
    SextetsSixBits(bs);
    var v := Sextets(bs);
    var s := StdEncode(bs);
    assert s == [StdChar(v[0]), StdChar(v[1]), '=', '='];
    assert s[..4] == s;
    var g := Group(bs[0], 0, 0);
    GroupValues(bs[0], 0, 0);
    QuadOf(s, g[0], g[1], 0, 0);
    assert StdDecode(s) == Some(Ungroup(g[0], g[1], 0, 0)[..1]);
    assert Ungroup(g[0], g[1], 0, 0)[..1] == [bs[0]];
    assert bs == [bs[0]];
  }

  /** A final group of two bytes, padded with `=`, decodes to those bytes. */
  lemma DecodeTwo(bs: seq<Byte>)
    requires |bs| == 2
    ensures StdDecode(StdEncode(bs)) == Some(bs)
  {
    SextetsSixBits(bs);
    var v := Sextets(bs);
    var s := StdEncode(bs);
    assert s == [StdChar(v[0]), StdChar(v[1]), StdChar(v[2]), '='];
    assert s[..4] == s;
    var g := Group(bs[0], bs[1], 0);
    GroupValues(bs[0], bs[1], 0);
    QuadOf(s, g[0], g[1], g[2], 0);
    assert StdDecode(s) == Some(Ungroup(g[0], g[1], g[2], 0)[..2]);
    assert Ungroup(g[0], g[1], g[2], 0)[..2] == [bs[0], bs[1]];
    assert bs == [bs[0], bs[1]];
  }

  /** The encoding of three bytes or more is the first full group, then the encoding of the rest. */
  lemma EncodeFirstGroup(bs: seq<Byte>)
    requires |bs| >= 3
    ensures |StdEncode(bs)| >= 4
    ensures StdEncode(bs)[..4] == Chars(Group(bs[0], bs[1], bs[2]))
    ensures StdEncode(bs)[4..] == StdEncode(bs[3..])
  {
    SextetsSixBits(bs);
    SextetsSixBits(bs[3..]);
    var g := Group(bs[0], bs[1], bs[2]);
    var w := Sextets(bs[3..]);
    CharsAppend(g, w);
    assert StdEncode(bs) == Chars(g) + StdEncode(bs[3..]);
  }

  /** Decoding a full group in front of a decodable rest. */
  lemma DecodeFull(s: string, a: nat, b: nat, c: nat, d: nat, rest: seq<Byte>)
    requires |s| >= 4 && a < 64 && b < 64 && c < 64 && d < 64
    requires Quad(s[..4]) == Some((a, b, c, d)) && s[2] != '=' && s[3] != '='
    requires StdDecode(s[4..]) == Some(rest)
    ensures StdDecode(s) == Some(Ungroup(a, b, c, d) + rest)
  {
  }

  /** The first four characters of the encoding of three bytes or more read as the first group. */
  lemma FirstQuad(bs: seq<Byte>)
    requires |bs| >= 3
    ensures var g := Group(bs[0], bs[1], bs[2]);
      |StdEncode(bs)| >= 4 && Quad(StdEncode(bs)[..4]) == Some((g[0], g[1], g[2], g[3]))
    ensures StdEncode(bs)[2] != '=' && StdEncode(bs)[3] != '='
    ensures StdEncode(bs)[4..] == StdEncode(bs[3..])
  {
    EncodeFirstGroup(bs);
    var g := Group(bs[0], bs[1], bs[2]);
    var s := StdEncode(bs);
    QuadOf(s[..4], g[0], g[1], g[2], g[3]);
  }

  /** A full group in front of a decodable rest decodes to its three bytes in front of the rest. */
  lemma DecodeGroup(bs: seq<Byte>)
    requires |bs| >= 3
    requires StdDecode(StdEncode(bs[3..])) == Some(bs[3..])
    ensures StdDecode(StdEncode(bs)) == Some(bs)
  {
    FirstQuad(bs);
    var g := Group(bs[0], bs[1], bs[2]);
    GroupValues(bs[0], bs[1], bs[2]);
    assert Ungroup(g[0], g[1], g[2], g[3]) + bs[3..] == bs;
    DecodeFull(StdEncode(bs), g[0], g[1], g[2], g[3], bs[3..]);
  }

  /** Strict decoding reads the standard encoding back. */
  lemma {:induction false} StdDecodeEncode(bs: seq<Byte>)
    ensures StdDecode(StdEncode(bs)) == Some(bs)
    decreases |bs|
  {
    if |bs| >= 3 {
      StdDecodeEncode(bs[3..]);
      DecodeGroup(bs);
    } else if |bs| == 2 {
      DecodeTwo(bs);
    } else if |bs| == 1 {
      DecodeOne(bs);
    } else {
      assert StdEncode(bs) == [];
    }
  }

  /** `base64UrlDecode(base64UrlEncode(x))` gives the bytes back. */
  lemma UrlRoundTrip(bs: seq<Byte>)
    ensures UrlDecode(UrlEncode(bs)) == Some(bs)
  {
    UrlEncodeText(bs);
    Normalized(Sextets(bs));
    StdDecodeEncode(bs);
  }
}

/**
 * JSON values as `JSON.parse` produces them (RFC 8259 grammar), and the
 * JavaScript coercions the code applies to them: `Number(value)`,
 * truthiness, and property lookup on a parsed object.
 */
module Json {
  import opened Wrappers
  import opened JsNumber

  datatype Json =
    | JNull
    | JBool(b: bool)
    | JNumber(n: real)
    | JString(s: string)
    | JArray(elems: seq<Json>)
    | JObject(members: seq<(string, Json)>)

  predicate IsJsonWs(c: char) {
    c == ' ' || c == '\t' || c == '\n' || c == '\r'
  }

  function SkipWs(s: string, i: nat): (j: nat)
    requires i <= |s|
    ensures i <= j <= |s|
    ensures j == |s| || !IsJsonWs(s[j])
    decreases |s| - i
  {
    if i < |s| && IsJsonWs(s[i]) then SkipWs(s, i + 1) else i
  }

  /** Four hexadecimal digits at `i`, as a UTF-16 code unit. */
  function Hex4(s: string, i: nat): (r: Option<nat>)
    ensures r.Some? ==> i + 4 <= |s| && r.value < 0x10000
  {
    if i + 4 <= |s| then
      match (DigitValue(s[i], 16), DigitValue(s[i + 1], 16), DigitValue(s[i + 2], 16), DigitValue(s[i + 3], 16))
      case (Some(d0), Some(d1), Some(d2), Some(d3)) => Some(d0 * 0x1000 + d1 * 0x100 + d2 * 0x10 + d3)
      case _ => None
    else None
  }

  predicate IsScalar(v: int) {
    (0 <= v < 0xD800) || (0xE000 <= v < 0x110000)
  }

  /**
   * The escape whose letter is at `k` (just after a backslash): the
   * character it stands for and the index after it.  A `\u` surrogate
   * pair becomes one code point; a lone surrogate cannot be a Dafny
   * character and becomes U+FFFD.
   */
  function Escape(s: string, k: nat): (r: Option<(char, nat)>)
    ensures r.Some? ==> k < r.value.1 <= |s|
  {
    if k >= |s| then None
    else
      var e := s[k];
      if e == '"' || e == '\\' || e == '/' then Some((e, k + 1))
      else if e == 'b' then Some((8 as char, k + 1))
      else if e == 'f' then Some((12 as char, k + 1))
      else if e == 'n' then Some(('\n', k + 1))
      else if e == 'r' then Some(('\r', k + 1))
      else if e == 't' then Some(('\t', k + 1))
      else if e != 'u' then None
      else
        match Hex4(s, k + 1)
        case None => None
        case Some(hi) =>
          if IsScalar(hi) then Some((hi as char, k + 5))
          else if 0xD800 <= hi < 0xDC00 && k + 6 < |s| && s[k + 5] == '\\' && s[k + 6] == 'u' && Hex4(s, k + 7).Some?
                  && 0xDC00 <= Hex4(s, k + 7).value < 0xE000 then
            var lo := Hex4(s, k + 7).value;
            Some(((0x10000 + (hi - 0xD800) * 0x400 + (lo - 0xDC00)) as char, k + 11))
          else Some((0xFFFD as char, k + 5))
  }

  /** The characters of a string literal from `i` up to its closing quote. */
  function StringBody(s: string, i: nat, acc: string): (r: Option<(string, nat)>)
    requires i <= |s|
    ensures r.Some? ==> i < r.value.1 <= |s|
    decreases |s| - i
  {
    if i == |s| then None
    else if s[i] == '"' then Some((acc, i + 1))
    else if s[i] == '\\' then
      match Escape(s, i + 1)
      case None => None
      case Some((c, j)) => StringBody(s, j, acc + [c])
    else if (s[i] as int) < 0x20 then None
    else StringBody(s, i + 1, acc + [s[i]])
  }

  predicate IsDigit(c: char) {
    '0' <= c <= '9'
  }

  /** The optional exponent `[eE][+-]?digits` at `i`: its value and the index after it. */
  function ExponentAt(s: string, i: nat): (r: Option<(int, nat)>)
    requires i <= |s|
    ensures r.Some? ==> i <= r.value.1 <= |s|
  {
    if i == |s| || (s[i] != 'e' && s[i] != 'E') then Some((0, i))
    else
      var neg := i + 1 < |s| && s[i + 1] == '-';
      var d := if i + 1 < |s| && (s[i + 1] == '-' || s[i + 1] == '+') then i + 2 else i + 1;
      var n := DigitRun(s, d, 10);
      if n == 0 then None
      else
        var v: int := DigitsIn(s, d, d + n, 10);
        Some((if neg then -v else v, d + n))
  }

  /** A number `-? (0 | [1-9][0-9]*) (. [0-9]+)? ([eE][+-]?[0-9]+)?` at `i`. */
  function NumberAt(s: string, i: nat): (r: Option<(Json, nat)>)
    requires i <= |s|
    ensures r.Some? ==> i < r.value.1 <= |s|
  {
    var a := if i < |s| && s[i] == '-' then i + 1 else i;
    if a == |s| || !IsDigit(s[a]) then None
    else
      var intEnd := if s[a] == '0' then a + 1 else a + DigitRun(s, a, 10);
      var hasFrac := intEnd < |s| && s[intEnd] == '.';
      var fracLen := if hasFrac then DigitRun(s, intEnd + 1, 10) else 0;
      if hasFrac && fracLen == 0 then None
      else
        var fracEnd := if hasFrac then intEnd + 1 + fracLen else intEnd;
        match ExponentAt(s, fracEnd)
        case None => None
        case Some((e, j)) =>
          var mag := Scaled(DigitsIn(s, a, fracEnd, 10), e - fracLen);
          Some((JNumber(if a > i then -mag else mag), j))
  }

  /** `true`, `false` or `null` at `i`. */
  function KeywordAt(s: string, i: nat): (r: Option<(Json, nat)>)
    requires i <= |s|
    ensures r.Some? ==> i < r.value.1 <= |s|
  {
    if i + 4 <= |s| && s[i] == 't' && s[i + 1] == 'r' && s[i + 2] == 'u' && s[i + 3] == 'e' then
      Some((JBool(true), i + 4))
    else if i + 5 <= |s| && s[i] == 'f' && s[i + 1] == 'a' && s[i + 2] == 'l' && s[i + 3] == 's' && s[i + 4] == 'e' then
      Some((JBool(false), i + 5))
    else if i + 4 <= |s| && s[i] == 'n' && s[i + 1] == 'u' && s[i + 2] == 'l' && s[i + 3] == 'l' then
      Some((JNull, i + 4))
    else None
  }

  /** One JSON value starting exactly at `i`, and the index after it. */
  function Value(s: string, i: nat): (r: Option<(Json, nat)>)
    requires i <= |s|
    ensures r.Some? ==> i < r.value.1 <= |s|
    decreases |s| - i, 0
  {
    if i == |s| then None
    else if s[i] == '[' then
      var k := SkipWs(s, i + 1);
      if k < |s| && s[k] == ']' then Some((JArray([]), k + 1)) else Items(s, i + 1, [])
    else if s[i] == '{' then
      var k := SkipWs(s, i + 1);
      if k < |s| && s[k] == '}' then Some((JObject([]), k + 1)) else Members(s, i + 1, [])
    else if s[i] == '"' then
      match StringBody(s, i + 1, [])
      case None => None
      case Some((t, j)) => Some((JString(t), j))
    else if s[i] == 't' || s[i] == 'f' || s[i] == 'n' then KeywordAt(s, i)
    else NumberAt(s, i)
  }

  /** The elements of a non-empty array from `i` (after `[`) through its `]`. */
  function Items(s: string, i: nat, acc: seq<Json>): (r: Option<(Json, nat)>)
    requires i <= |s|
    ensures r.Some? ==> i < r.value.1 <= |s|
    decreases |s| - i, 1
  {
    var j := SkipWs(s, i);
    match Value(s, j)
    case None => None
    case Some((v, k)) =>
      var m := SkipWs(s, k);
      if m < |s| && s[m] == ',' then Items(s, m + 1, acc + [v])
      else if m < |s| && s[m] == ']' then Some((JArray(acc + [v]), m + 1))
      else None
  }

  /** One member `"key" : value` starting exactly at `j`: its key, value and the index after it. */
  function MemberAt(s: string, j: nat): (r: Option<(string, Json, nat)>)
    requires j <= |s|
    ensures r.Some? ==> j < r.value.2 <= |s|
    decreases |s| - j, 1
  {
    if j == |s| || s[j] != '"' then None
    else
      match StringBody(s, j + 1, [])
      case None => None
      case Some((key, k)) =>
        var c := SkipWs(s, k);
        if c == |s| || s[c] != ':' then None
        else
          match Value(s, SkipWs(s, c + 1))
          case None => None
          case Some((v, e)) => Some((key, v, e))
  }

  /** The members of a non-empty object from `i` (after `{`) through its `}`. */
  function Members(s: string, i: nat, acc: seq<(string, Json)>): (r: Option<(Json, nat)>)
    requires i <= |s|
    ensures r.Some? ==> i < r.value.1 <= |s|
    decreases |s| - i, 2
  {
    match MemberAt(s, SkipWs(s, i))
    case None => None
    case Some((key, v, e)) =>
      var m := SkipWs(s, e);
      if m < |s| && s[m] == ',' then Members(s, m + 1, acc + [(key, v)])
      else if m < |s| && s[m] == '}' then Some((JObject(acc + [(key, v)]), m + 1))
      else None
  }

  /** `JSON.parse(text)`: one value with optional whitespace around it; `None` where it throws. */
  function Parse(text: string): Option<Json> {
    var i := SkipWs(text, 0);
    match Value(text, i)
    case None => None
    case Some((v, j)) => if SkipWs(text, j) == |text| then Some(v) else None
  }

  /**
   * `Number(value)`.  An array converts through its string form: `[]` is
   * 0, a one-element array converts like its element's string (so `[true]`
   * is NaN), and two or more elements always contain a comma, hence NaN.
   */
  function ToNumber(j: Json): Num {
    match j
    case JNull => Finite(0.0)
    case JBool(b) => Finite(if b then 1.0 else 0.0)
    case JNumber(v) => Finite(v)
    case JString(t) => StringToNumber(t)
    case JObject(_) => NaN
    case JArray(es) =>
      if |es| == 0 then Finite(0.0)
      else if |es| == 1 then (if es[0].JBool? then NaN else ToNumber(es[0]))
      else NaN
  }

  /** JavaScript truthiness of a parsed value. */
  predicate Truthy(j: Json) {
    match j
    case JNull => false
    case JBool(b) => b
    case JNumber(v) => v != 0.0
    case JString(t) => t != []
    case _ => true
  }

  /** `obj[key]` on a parsed value: the last member with that key wins, as in `JSON.parse`. */
  function Lookup(j: Json, key: string): (r: Option<Json>)
    ensures r.Some? ==> j.JObject?
  {
    if j.JObject? then LastMember(j.members, key) else None
  }

  function LastMember(ms: seq<(string, Json)>, key: string): (r: Option<Json>)
    ensures r.Some? <==> exists k :: 0 <= k < |ms| && ms[k].0 == key
  {
    if ms == [] then None
    else if ms[|ms| - 1].0 == key then Some(ms[|ms| - 1].1)
    else LastMember(ms[..|ms| - 1], key)
  }
}

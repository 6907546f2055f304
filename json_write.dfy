/**
 * `JSON.stringify` for the two shapes this system writes: arrays of
 * integers (the product-id list kept in checkout-session metadata) and
 * flat objects whose members are integers or strings (token headers and
 * payloads, the user object kept by the client).  The lemmas show that
 * `JSON.parse` reads each of them back.
 */
module JsonWrite {
  import opened Wrappers
  import opened JsText
  import opened JsNumber
  import opened Json

  function HexDigitChar(d: nat): (c: char)
    requires d < 16
    ensures DigitValue(c, 16) == Some(d)
  {
    if d < 10 then ('0' as int + d) as char else ('a' as int + d - 10) as char
  }

  /** How `JSON.stringify` writes one code point inside a string literal. */
  function EscapeChar(c: char): (e: string)
    ensures 1 <= |e| <= 6
  {
    if c == '"' then "\\\""
    else if c == '\\' then "\\\\"
    else if c as int == 8 then "\\b"
    else if c as int == 12 then "\\f"
    else if c == '\n' then "\\n"
    else if c == '\r' then "\\r"
    else if c == '\t' then "\\t"
    else if (c as int) < 0x20 then "\\u00" + [HexDigitChar(c as int / 16), HexDigitChar(c as int % 16)]
    else [c]
  }

  function EscapeString(t: string): string {
    if t == [] then [] else EscapeChar(t[0]) + EscapeString(t[1..])
  }

  /** A JSON string literal for `t`. */
  function Quote(t: string): string {
    "\"" + (EscapeString(t) + "\"")
  }

  /** The written form of each element of an integer array. */
  function IntTexts(xs: seq<int>): (ds: seq<string>)
    ensures |ds| == |xs|
    ensures forall k :: 0 <= k < |xs| ==> ds[k] == DecimalString(xs[k])
  {
    seq(|xs|, k requires 0 <= k < |xs| => DecimalString(xs[k]))
  }

  /** `JSON.stringify(xs)` for an array of integers. */
  function IntArrayText(xs: seq<int>): string {
    "[" + Join(IntTexts(xs), ',') + "]"
  }

  /** The parsed form of an integer array: one JSON number per element. */
  function Numbers(xs: seq<int>): (r: seq<Json>)
    ensures |r| == |xs|
    ensures forall k :: 0 <= k < |xs| ==> r[k] == JNumber(xs[k] as real)
  {
    seq(|xs|, k requires 0 <= k < |xs| => JNumber(xs[k] as real))
  }

  /** A member value of a flat object. */
  datatype Scalar = SInt(i: int) | SStr(t: string)

  function ScalarText(v: Scalar): (r: string)
    ensures |r| >= 1 && (r[0] == '"' || r[0] == '-' || '0' <= r[0] <= '9')
  {
    match v
    case SInt(i) => DecimalString(i)
    case SStr(t) => Quote(t)
  }

  function ScalarJson(v: Scalar): Json {
    match v
    case SInt(i) => JNumber(i as real)
    case SStr(t) => JString(t)
  }

  function MemberItem(m: (string, Scalar)): string {
    Quote(m.0) + ":" + ScalarText(m.1)
  }

  function MemberTexts(ms: seq<(string, Scalar)>): (ds: seq<string>)
    ensures |ds| == |ms|
    ensures forall k :: 0 <= k < |ms| ==> ds[k] == MemberItem(ms[k])
  {
    seq(|ms|, k requires 0 <= k < |ms| => MemberItem(ms[k]))
  }

  /** `JSON.stringify(obj)` for a flat object whose members are listed in property order. */
  function ObjectText(ms: seq<(string, Scalar)>): string {
    "{" + Join(MemberTexts(ms), ',') + "}"
  }

  function ObjectJson(ms: seq<(string, Scalar)>): (j: Json)
    ensures j.JObject? && |j.members| == |ms|
    ensures forall k :: 0 <= k < |ms| ==> j.members[k] == (ms[k].0, ScalarJson(ms[k].1))
  {
    JObject(seq(|ms|, k requires 0 <= k < |ms| => (ms[k].0, ScalarJson(ms[k].1))))
  }

  // ---------------------------------------------------------------------
  // Reading back what was written
  // ---------------------------------------------------------------------

  lemma AppendAssoc<T>(a: seq<T>, b: seq<T>, c: seq<T>)
    ensures (a + b) + c == a + (b + c)
  {
  }

  lemma EmptyAppend<T>(t: seq<T>)
    ensures [] + t == t
  {
  }

  /** One written character is read back by one step of the string-literal reader. */
  lemma EscapeCharStep(s: string, i: nat, c: char, acc: string)
    requires At(s, i, EscapeChar(c))
    ensures StringBody(s, i, acc) == StringBody(s, i + |EscapeChar(c)|, acc + [c])
  {
    var e := EscapeChar(c);
    AtChar(s, i, e, 0);
    if |e| == 1 {
      assert e == [c];
    } else {
      AtChar(s, i, e, 1);
      assert s[i] == '\\';
      if |e| == 2 {
        assert Escape(s, i + 1) == Some((c, i + 2));
      } else {
        AtChar(s, i, e, 2);
        AtChar(s, i, e, 3);
        AtChar(s, i, e, 4);
        AtChar(s, i, e, 5);
        assert Hex4(s, i + 2) == Some(c as int);
        assert Escape(s, i + 1) == Some((c, i + 6));
      }
    }
  }

  lemma StringBodyClose(s: string, i: nat, acc: string)
    requires i < |s| && s[i] == '"'
    ensures StringBody(s, i, acc) == Some((acc, i + 1))
  {
  }

  lemma EscapeStringCons(t: string)
    requires t != []
    ensures EscapeString(t) + "\"" == EscapeChar(t[0]) + (EscapeString(t[1..]) + "\"")
  {
    AppendAssoc(EscapeChar(t[0]), EscapeString(t[1..]), "\"");
  }

  lemma EscapeStringConsStep(s: string, i: nat, t: string, acc: string)
    requires t != []
    requires At(s, i, EscapeString(t) + "\"")
    ensures |EscapeString(t)| == |EscapeChar(t[0])| + |EscapeString(t[1..])|
    ensures At(s, i + |EscapeChar(t[0])|, EscapeString(t[1..]) + "\"")
    ensures StringBody(s, i, acc) == StringBody(s, i + |EscapeChar(t[0])|, acc + [t[0]])
  {
    EscapeStringCons(t);
    AtConcat(s, i, EscapeChar(t[0]), EscapeString(t[1..]) + "\"");
    EscapeCharStep(s, i, t[0], acc);
  }

  lemma {:induction false} EscapeStringRead(s: string, i: nat, t: string, acc: string)
    requires At(s, i, EscapeString(t) + "\"")
    ensures StringBody(s, i, acc) == Some((acc + t, i + |EscapeString(t)| + 1))
    decreases |t|
  {
    if t == [] {
      assert EscapeString(t) + "\"" == "\"";
      AtChar(s, i, "\"", 0);
      StringBodyClose(s, i, acc);
      assert acc + t == acc;
    } else {
      EscapeStringConsStep(s, i, t, acc);
      EscapeStringRead(s, i + |EscapeChar(t[0])|, t[1..], acc + [t[0]]);
      ConsTail(acc, t);
    }
  }

  /** A written string literal is read back as the same string. */
  lemma QuoteBody(s: string, i: nat, t: string)
    requires At(s, i, Quote(t))
    ensures s[i] == '"' && StringBody(s, i + 1, []) == Some((t, i + |Quote(t)|))
  {
    AtConcat(s, i, "\"", EscapeString(t) + "\"");
    AtChar(s, i, "\"", 0);
    EscapeStringRead(s, i + 1, t, []);
    EmptyAppend(t);
  }

  lemma QuoteRead(s: string, i: nat, t: string)
    requires At(s, i, Quote(t))
    ensures Value(s, i) == Some((JString(t), i + |Quote(t)|))
  {
    QuoteBody(s, i, t);
  }

  /** A character that may follow a number without extending it. */
  predicate EndsNumber(s: string, e: nat) {
    e == |s| || (e < |s| && s[e] != '.' && s[e] != 'e' && s[e] != 'E' && !IsDigit(s[e]))
  }

  /** A sign and a run of `n` digits at `i`, ended by `EndsNumber`, are read as one number. */
  lemma NumberAtRun(s: string, i: nat, a: nat, n: nat, m: nat)
    requires a == (if i < |s| && s[i] == '-' then i + 1 else i)
    requires 0 < n && a + n <= |s|
    requires forall k :: a <= k < a + n ==> '0' <= s[k] <= '9'
    requires s[a] == '0' ==> n == 1
    requires EndsNumber(s, a + n)
    requires DigitsIn(s, a, a + n, 10) == m
    ensures NumberAt(s, i) == Some((JNumber(if a > i then -(m as real) else m as real), a + n))
  {
    DigitRunAt(s, a, n);
    assert ExponentAt(s, a + n) == Some((0, a + n));
  }

  /** The same run, at the start of a value, is read as that number. */
  lemma ValueAtRun(s: string, i: nat, a: nat, n: nat, m: nat, v: real, e: nat)
    requires a == (if i < |s| && s[i] == '-' then i + 1 else i)
    requires 0 < n && a + n <= |s|
    requires forall k :: a <= k < a + n ==> '0' <= s[k] <= '9'
    requires s[a] == '0' ==> n == 1
    requires EndsNumber(s, a + n)
    requires DigitsIn(s, a, a + n, 10) == m
    requires v == (if a > i then -(m as real) else m as real) && e == a + n
    ensures Value(s, i) == Some((JNumber(v), e))
  {
    NumberAtRun(s, i, a, n, m);
    assert i < |s| && (s[i] == '-' || '0' <= s[i] <= '9');
  }

  /** The number grammar reads back what `String(n)` wrote for an integer. */
  lemma NumberRead(s: string, i: nat, n: int)
    requires At(s, i, DecimalString(n))
    requires EndsNumber(s, i + |DecimalString(n)|)
    ensures Value(s, i) == Some((JNumber(n as real), i + |DecimalString(n)|))
  {
    var m: nat := if n < 0 then -n else n;
    var a := if n < 0 then i + 1 else i;
    SignedDigitsAt(s, i, n);
    NatDigitsAt(s, a, m);
    ValueAtRun(s, i, a, |NatDigits(m)|, m, n as real, i + |DecimalString(n)|);
  }

  // Lists separated by commas, as both writers produce them.

  /** Where the first part of a comma-joined list, and what follows it, lie. */
  lemma JoinSplit(s: string, i: nat, ds: seq<string>, close: char)
    requires ds != []
    requires At(s, i, Join(ds, ',') + [close])
    ensures At(s, i, ds[0])
    ensures i + |ds[0]| < |s| && s[i + |ds[0]|] == (if |ds| == 1 then close else ',')
    ensures |ds| == 1 ==> |Join(ds, ',')| == |ds[0]|
    ensures |ds| > 1 ==>
      && At(s, i + |ds[0]| + 1, Join(ds[1..], ',') + [close])
      && |Join(ds, ',')| == |ds[0]| + 1 + |Join(ds[1..], ',')|
  {
    var rest := if |ds| == 1 then [close] else [','] + (Join(ds[1..], ',') + [close]);
    assert Join(ds, ',') + [close] == ds[0] + rest;
    AtConcat(s, i, ds[0], rest);
    AtChar(s, i + |ds[0]|, rest, 0);
    if |ds| > 1 {
      AtConcat(s, i + |ds[0]|, [','], Join(ds[1..], ',') + [close]);
    }
  }

  /** Where the parts of a bracketed text lie. */
  lemma Enclosed(s: string, open: char, body: string, close: char)
    requires s == [open] + (body + [close])
    ensures |s| == |body| + 2 && s[0] == open && At(s, 1, body + [close])
  {
    AtWhole(s);
    AtConcat(s, 0, [open], body + [close]);
  }

  // Arrays.

  /** `d`, written anywhere in `s` and followed by a character that ends a number, is read as `v`. */
  ghost predicate ReadsAs(s: string, d: string, v: Json) {
    && d != [] && !IsJsonWs(d[0])
    && forall j: nat {:trigger At(s, j, d)} ::
         At(s, j, d) && EndsNumber(s, j + |d|) ==> Value(s, j) == Some((v, j + |d|))
  }

  /** Each text in `ds` is read as the value at the same place in `vs`. */
  ghost predicate AllReadAs(s: string, ds: seq<string>, vs: seq<Json>)
    decreases |ds|
  {
    |ds| == |vs| && (ds != [] ==> ReadsAs(s, ds[0], vs[0]) && AllReadAs(s, ds[1..], vs[1..]))
  }

  lemma NumberReadsAs(s: string, n: int)
    ensures ReadsAs(s, DecimalString(n), JNumber(n as real))
  {
    var d := DecimalString(n);
    forall j: nat | At(s, j, d) && EndsNumber(s, j + |d|)
      ensures Value(s, j) == Some((JNumber(n as real), j + |d|))
    {
      NumberRead(s, j, n);
    }
  }

  lemma {:induction false} IntTextsReadAs(s: string, xs: seq<int>)
    ensures AllReadAs(s, IntTexts(xs), Numbers(xs))
    decreases |xs|
  {
    if xs != [] {
      NumberReadsAs(s, xs[0]);
      IntTextsReadAs(s, xs[1..]);
      assert IntTexts(xs)[1..] == IntTexts(xs[1..]);
      assert Numbers(xs)[1..] == Numbers(xs[1..]);
    }
  }

  lemma ConsTail<T>(acc: seq<T>, xs: seq<T>)
    requires xs != []
    ensures acc + [xs[0]] + xs[1..] == acc + xs
  {
    assert [xs[0]] + xs[1..] == xs;
  }

  /** An array element at `i` followed directly by `,`: the rest of the array follows. */
  lemma ItemsNext(s: string, i: nat, acc: seq<Json>, v: Json, k: nat, all: seq<Json>, e: nat)
    requires i < |s| && !IsJsonWs(s[i])
    requires Value(s, i) == Some((v, k))
    requires k < |s| && s[k] == ','
    requires Items(s, k + 1, acc + [v]) == Some((JArray(all), e))
    ensures Items(s, i, acc) == Some((JArray(all), e))
  {
    assert SkipWs(s, i) == i;
    assert SkipWs(s, k) == k;
  }

  /** An array element at `i` followed directly by `]`: the array ends. */
  lemma ItemsLast(s: string, i: nat, acc: seq<Json>, v: Json, k: nat, all: seq<Json>)
    requires i < |s| && !IsJsonWs(s[i])
    requires Value(s, i) == Some((v, k))
    requires k < |s| && s[k] == ']'
    requires acc + [v] == all
    ensures Items(s, i, acc) == Some((JArray(all), k + 1))
  {
    assert SkipWs(s, i) == i;
    assert SkipWs(s, k) == k;
  }

  /**
   * The elements `vs` of an array as the reader meets them from `i`: each
   * starts exactly where the previous `,` ended, and the closing `]` sits
   * just before `e`.
   */
  predicate ValuesAt(s: string, i: nat, vs: seq<Json>, e: nat)
    requires vs != []
    decreases |vs|
  {
    && i < |s| && !IsJsonWs(s[i])
    && Value(s, i).Some? && Value(s, i).value.0 == vs[0]
    && Value(s, i).value.1 < |s|
    && if |vs| == 1 then s[Value(s, i).value.1] == ']' && e == Value(s, i).value.1 + 1
       else s[Value(s, i).value.1] == ',' && ValuesAt(s, Value(s, i).value.1 + 1, vs[1..], e)
  }

  /** Laid-out elements are read as an array ending at `e`. */
  lemma {:induction false} ItemsRead(s: string, i: nat, vs: seq<Json>, e: nat, acc: seq<Json>)
    requires vs != [] && ValuesAt(s, i, vs, e)
    ensures Items(s, i, acc) == Some((JArray(acc + vs), e))
    decreases |vs|
  {
    var k := Value(s, i).value.1;
    assert Value(s, i) == Some((vs[0], k));
    if |vs| > 1 {
      ItemsRead(s, k + 1, vs[1..], e, acc + [vs[0]]);
      ConsTail(acc, vs);
      ItemsNext(s, i, acc, vs[0], k, acc + vs, e);
    } else {
      ItemsLast(s, i, acc, vs[0], k, acc + vs);
    }
  }

  /** A text that is `[`, laid-out elements and the closing `]` parses as that array. */
  lemma ParseArray(s: string, vs: seq<Json>)
    requires vs != [] && |s| > 1 && s[0] == '['
    requires ValuesAt(s, 1, vs, |s|)
    ensures Parse(s) == Some(JArray(vs))
  {
    assert SkipWs(s, 0) == 0;
    assert SkipWs(s, 1) == 1;
    assert s[1] != ']';
    ItemsRead(s, 1, vs, |s|, []);
    assert [] + vs == vs;
    assert SkipWs(s, |s|) == |s|;
  }

  /** The element written at `i` is read as `v`, up to the separator after it. */
  lemma ElementRead(s: string, i: nat, d: string, v: Json, m: nat)
    requires ReadsAs(s, d, v) && At(s, i, d) && m == i + |d|
    requires m < |s| && (s[m] == ',' || s[m] == ']')
    ensures i < |s| && !IsJsonWs(s[i]) && Value(s, i) == Some((v, m))
  {
    AtChar(s, i, d, 0);
    assert EndsNumber(s, m);
  }

  /** A single element, then the closing `]`. */
  lemma ValuesAtOne(s: string, i: nat, vs: seq<Json>, k: nat, e: nat)
    requires |vs| == 1 && i < |s| && !IsJsonWs(s[i])
    requires Value(s, i) == Some((vs[0], k)) && k < |s|
    requires s[k] == ']' && e == k + 1
    ensures ValuesAt(s, i, vs, e)
  {
  }

  /** One more element, then `,`, in front of laid-out elements. */
  lemma ValuesAtCons(s: string, i: nat, vs: seq<Json>, k: nat, e: nat)
    requires |vs| > 1 && i < |s| && !IsJsonWs(s[i])
    requires Value(s, i) == Some((vs[0], k)) && k < |s|
    requires s[k] == ',' && ValuesAt(s, k + 1, vs[1..], e)
    ensures ValuesAt(s, i, vs, e)
  {
  }

  /** Texts that read as `vs`, joined by commas and closed by `]`, are laid out as the elements `vs`. */
  lemma {:induction false} ElementsLayout(s: string, i: nat, ds: seq<string>, vs: seq<Json>, e: nat)
    requires ds != [] && AllReadAs(s, ds, vs)
    requires At(s, i, Join(ds, ',') + "]")
    requires e == i + |Join(ds, ',')| + 1
    ensures vs != [] && ValuesAt(s, i, vs, e)
    decreases |ds|
  {
    JoinSplit(s, i, ds, ']');
    var m := i + |ds[0]|;
    ElementRead(s, i, ds[0], vs[0], m);
    if |ds| > 1 {
      ElementsLayout(s, m + 1, ds[1..], vs[1..], e);
      ValuesAtCons(s, i, vs, m, e);
    } else {
      ValuesAtOne(s, i, vs, m, e);
    }
  }

  /** A non-empty integer-array text is read as its numbers. */
  lemma IntsTextParse(s: string, xs: seq<int>)
    requires xs != [] && |s| == |Join(IntTexts(xs), ',')| + 2
    requires s[0] == '[' && At(s, 1, Join(IntTexts(xs), ',') + "]")
    ensures Parse(s) == Some(JArray(Numbers(xs)))
  {
    IntTextsReadAs(s, xs);
    ElementsLayout(s, 1, IntTexts(xs), Numbers(xs), |s|);
    ParseArray(s, Numbers(xs));
  }

  /** `JSON.parse(JSON.stringify(xs))` is the array of the same integers. */
  lemma IntArrayRoundTrip(xs: seq<int>)
    ensures Parse(IntArrayText(xs)) == Some(JArray(Numbers(xs)))
  {
    var s := IntArrayText(xs);
    if xs == [] {
      assert s == "[]";
      assert SkipWs(s, 0) == 0;
      assert SkipWs(s, 1) == 1;
      assert SkipWs(s, 2) == 2;
      assert Numbers(xs) == [];
    } else {
      Enclosed(s, '[', Join(IntTexts(xs), ','), ']');
      IntsTextParse(s, xs);
    }
  }

  // Objects.

  lemma MemberAtParts(s: string, i: nat, key: string, c: nat, v: Json, k: nat)
    requires i < |s| && s[i] == '"'
    requires StringBody(s, i + 1, []) == Some((key, c))
    requires c + 1 < |s| && s[c] == ':' && !IsJsonWs(s[c + 1])
    requires Value(s, c + 1) == Some((v, k))
    ensures MemberAt(s, i) == Some((key, v, k))
  {
    assert SkipWs(s, c) == c;
    assert SkipWs(s, c + 1) == c + 1;
  }

  /** `q`, written anywhere in `s`, is a string literal read as `key`. */
  ghost predicate QuotedAs(s: string, q: string, key: string) {
    forall j: nat {:trigger At(s, j, q)} ::
      At(s, j, q) ==> j < |s| && s[j] == '"' && StringBody(s, j + 1, []) == Some((key, j + |q|))
  }

  lemma QuoteQuotedAs(s: string, t: string)
    ensures QuotedAs(s, Quote(t), t)
  {
    forall j: nat | At(s, j, Quote(t))
      ensures j < |s| && s[j] == '"' && StringBody(s, j + 1, []) == Some((t, j + |Quote(t)|))
    {
      QuoteBody(s, j, t);
    }
  }

  lemma ScalarReadsAs(s: string, v: Scalar)
    ensures ReadsAs(s, ScalarText(v), ScalarJson(v))
  {
    match v
    case SInt(n) =>
      NumberReadsAs(s, n);
    case SStr(t) =>
      var q := Quote(t);
      forall j: nat | At(s, j, q) && EndsNumber(s, j + |q|)
        ensures Value(s, j) == Some((JString(t), j + |q|))
      {
        QuoteRead(s, j, t);
      }
  }

  /** A key literal, `:` and a value text, written at `i`, are read as one member. */
  lemma MemberTextRead(s: string, i: nat, q: string, key: string, d: string, v: Json)
    requires QuotedAs(s, q, key) && ReadsAs(s, d, v)
    requires At(s, i, q + (":" + d))
    requires EndsNumber(s, i + |q| + 1 + |d|)
    ensures MemberAt(s, i) == Some((key, v, i + |q| + 1 + |d|))
  {
    var c := i + |q|;
    AtConcat(s, i, q, ":" + d);
    AtConcat(s, c, ":", d);
    assert i < |s| && s[i] == '"' && StringBody(s, i + 1, []) == Some((key, c)) by {
      assert At(s, i, q);
    }
    assert c + 1 < |s| && s[c] == ':' && !IsJsonWs(s[c + 1]) by {
      AtChar(s, c, ":", 0);
      AtChar(s, c + 1, d, 0);
    }
    assert Value(s, c + 1) == Some((v, c + 1 + |d|)) by {
      assert At(s, c + 1, d);
    }
    MemberAtParts(s, i, key, c, v, c + 1 + |d|);
  }

  /** `d`, written anywhere in `s` and followed by a character that ends a number, is read as member `p`. */
  ghost predicate ReadsAsMember(s: string, d: string, p: (string, Json)) {
    && d != [] && !IsJsonWs(d[0])
    && forall j: nat {:trigger At(s, j, d)} ::
         At(s, j, d) && EndsNumber(s, j + |d|) ==> MemberAt(s, j) == Some((p.0, p.1, j + |d|))
  }

  ghost predicate AllReadAsMembers(s: string, ds: seq<string>, ps: seq<(string, Json)>)
    decreases |ds|
  {
    |ds| == |ps| && (ds != [] ==> ReadsAsMember(s, ds[0], ps[0]) && AllReadAsMembers(s, ds[1..], ps[1..]))
  }

  lemma MemberReadsAs(s: string, m: (string, Scalar))
    ensures ReadsAsMember(s, MemberItem(m), (m.0, ScalarJson(m.1)))
  {
    var q := Quote(m.0);
    var d := ScalarText(m.1);
    assert MemberItem(m) == q + (":" + d);
    QuoteQuotedAs(s, m.0);
    ScalarReadsAs(s, m.1);
    forall j: nat | At(s, j, q + (":" + d)) && EndsNumber(s, j + |q + (":" + d)|)
      ensures MemberAt(s, j) == Some((m.0, ScalarJson(m.1), j + |q + (":" + d)|))
    {
      MemberTextRead(s, j, q, m.0, d, ScalarJson(m.1));
    }
  }

  lemma {:induction false} MemberTextsReadAs(s: string, ms: seq<(string, Scalar)>)
    ensures AllReadAsMembers(s, MemberTexts(ms), ObjectJson(ms).members)
    decreases |ms|
  {
    if ms != [] {
      MemberReadsAs(s, ms[0]);
      MemberTextsReadAs(s, ms[1..]);
      assert MemberTexts(ms)[1..] == MemberTexts(ms[1..]);
      assert ObjectJson(ms).members[1..] == ObjectJson(ms[1..]).members;
    }
  }

  /** A member at `i` followed directly by `,`: the rest of the object follows. */
  lemma MembersNext(s: string, i: nat, acc: seq<(string, Json)>, p: (string, Json), k: nat, all: seq<(string, Json)>, e: nat)
    requires i < |s| && !IsJsonWs(s[i])
    requires MemberAt(s, i) == Some((p.0, p.1, k))
    requires k < |s| && s[k] == ','
    requires Members(s, k + 1, acc + [p]) == Some((JObject(all), e))
    ensures Members(s, i, acc) == Some((JObject(all), e))
  {
    assert SkipWs(s, i) == i;
    assert SkipWs(s, k) == k;
  }

  /** A member at `i` followed directly by `}`: the object ends. */
  lemma MembersLast(s: string, i: nat, acc: seq<(string, Json)>, p: (string, Json), k: nat, all: seq<(string, Json)>)
    requires i < |s| && !IsJsonWs(s[i])
    requires MemberAt(s, i) == Some((p.0, p.1, k))
    requires k < |s| && s[k] == '}'
    requires acc + [p] == all
    ensures Members(s, i, acc) == Some((JObject(all), k + 1))
  {
    assert SkipWs(s, i) == i;
    assert SkipWs(s, k) == k;
  }

  /** The members `ps` of an object as the reader meets them from `i`, with the closing `}` just before `e`. */
  predicate MembersAt(s: string, i: nat, ps: seq<(string, Json)>, e: nat)
    requires ps != []
    decreases |ps|
  {
    && i < |s| && !IsJsonWs(s[i])
    && MemberAt(s, i).Some? && (MemberAt(s, i).value.0, MemberAt(s, i).value.1) == ps[0]
    && MemberAt(s, i).value.2 < |s|
    && if |ps| == 1 then s[MemberAt(s, i).value.2] == '}' && e == MemberAt(s, i).value.2 + 1
       else s[MemberAt(s, i).value.2] == ',' && MembersAt(s, MemberAt(s, i).value.2 + 1, ps[1..], e)
  }

  /** Laid-out members are read as an object ending at `e`. */
  lemma {:induction false} MembersRead(s: string, i: nat, ps: seq<(string, Json)>, e: nat, acc: seq<(string, Json)>)
    requires ps != [] && MembersAt(s, i, ps, e)
    ensures Members(s, i, acc) == Some((JObject(acc + ps), e))
    decreases |ps|
  {
    var k := MemberAt(s, i).value.2;
    assert MemberAt(s, i) == Some((ps[0].0, ps[0].1, k));
    if |ps| > 1 {
      MembersRead(s, k + 1, ps[1..], e, acc + [ps[0]]);
      ConsTail(acc, ps);
      MembersNext(s, i, acc, ps[0], k, acc + ps, e);
    } else {
      MembersLast(s, i, acc, ps[0], k, acc + ps);
    }
  }

  /** A text that is `{`, laid-out members and the closing `}` parses as that object. */
  lemma ParseObject(s: string, ps: seq<(string, Json)>)
    requires ps != [] && |s| > 1 && s[0] == '{'
    requires MembersAt(s, 1, ps, |s|)
    ensures Parse(s) == Some(JObject(ps))
  {
    assert SkipWs(s, 0) == 0;
    assert SkipWs(s, 1) == 1;
    assert s[1] == '"';
    MembersRead(s, 1, ps, |s|, []);
    assert [] + ps == ps;
    assert SkipWs(s, |s|) == |s|;
  }

  lemma MemberElementRead(s: string, i: nat, d: string, p: (string, Json), m: nat)
    requires ReadsAsMember(s, d, p) && At(s, i, d) && m == i + |d|
    requires m < |s| && (s[m] == ',' || s[m] == '}')
    ensures MemberAt(s, i) == Some((p.0, p.1, m))
  {
    assert EndsNumber(s, m);
  }

  lemma MembersAtOne(s: string, i: nat, ps: seq<(string, Json)>, k: nat, e: nat)
    requires |ps| == 1 && i < |s| && !IsJsonWs(s[i])
    requires MemberAt(s, i) == Some((ps[0].0, ps[0].1, k)) && k < |s|
    requires s[k] == '}' && e == k + 1
    ensures MembersAt(s, i, ps, e)
  {
  }

  lemma MembersAtCons(s: string, i: nat, ps: seq<(string, Json)>, k: nat, e: nat)
    requires |ps| > 1 && i < |s| && !IsJsonWs(s[i])
    requires MemberAt(s, i) == Some((ps[0].0, ps[0].1, k)) && k < |s|
    requires s[k] == ',' && MembersAt(s, k + 1, ps[1..], e)
    ensures MembersAt(s, i, ps, e)
  {
  }

  /** Texts that read as members `ps`, joined by commas and closed by `}`, are laid out as those members. */
  lemma {:induction false} MembersLayout(s: string, i: nat, ds: seq<string>, ps: seq<(string, Json)>, e: nat)
    requires ds != [] && AllReadAsMembers(s, ds, ps)
    requires At(s, i, Join(ds, ',') + "}")
    requires e == i + |Join(ds, ',')| + 1
    ensures ps != [] && MembersAt(s, i, ps, e)
    decreases |ds|
  {
    JoinSplit(s, i, ds, '}');
    var m := i + |ds[0]|;
    MemberElementRead(s, i, ds[0], ps[0], m);
    AtChar(s, i, ds[0], 0);
    if |ds| > 1 {
      MembersLayout(s, m + 1, ds[1..], ps[1..], e);
      MembersAtCons(s, i, ps, m, e);
    } else {
      MembersAtOne(s, i, ps, m, e);
    }
  }

  /** A non-empty object text is read as its members. */
  lemma MembersTextParse(s: string, ms: seq<(string, Scalar)>)
    requires ms != [] && |s| == |Join(MemberTexts(ms), ',')| + 2
    requires s[0] == '{' && At(s, 1, Join(MemberTexts(ms), ',') + "}")
    ensures Parse(s) == Some(ObjectJson(ms))
  {
    MemberTextsReadAs(s, ms);
    MembersLayout(s, 1, MemberTexts(ms), ObjectJson(ms).members, |s|);
    ParseObject(s, ObjectJson(ms).members);
  }

  /** `JSON.parse(JSON.stringify(obj))` gives the same members in the same order. */
  lemma ObjectRoundTrip(ms: seq<(string, Scalar)>)
    ensures Parse(ObjectText(ms)) == Some(ObjectJson(ms))
  {
    var s := ObjectText(ms);
    if ms == [] {
      assert s == "{}";
      assert SkipWs(s, 0) == 0;
      assert SkipWs(s, 1) == 1;
      assert SkipWs(s, 2) == 2;
      assert ObjectJson(ms) == JObject([]);
    } else {
      Enclosed(s, '{', Join(MemberTexts(ms), ','), '}');
      MembersTextParse(s, ms);
    }
  }
}

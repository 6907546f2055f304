/**
 * The product-id lists the checkout route receives and the reconciler
 * reads back from session metadata: every element goes through
 * `Number(id)` and only positive integers survive, in order, duplicates
 * kept.
 */
module ProductIds {
  import opened Wrappers
  import opened JsText
  import opened JsNumber
  import opened Json
  import opened JsonWrite

  /** `.map(Number).filter(id => Number.isInteger(id) && id > 0)`. */
  function PositiveIntegers(ns: seq<Num>): (ids: seq<int>)
    ensures |ids| <= |ns|
    ensures forall k :: 0 <= k < |ids| ==> ids[k] > 0
  {
    if ns == [] then []
    else (if IsPositiveInteger(ns[0]) then [ns[0].v.Floor] else []) + PositiveIntegers(ns[1..])
  }

  /** `Number(id)` applied to every element of a parsed array. */
  function NumbersOf(js: seq<Json>): (ns: seq<Num>)
    ensures |ns| == |js| && forall k :: 0 <= k < |js| ==> ns[k] == ToNumber(js[k])
  {
    seq(|js|, k requires 0 <= k < |js| => ToNumber(js[k]))
  }

  /** `normalizeProductIds(raw)`: non-arrays give the empty list. */
  function NormalizeProductIds(raw: Option<Json>): seq<int> {
    if raw.Some? && raw.value.JArray? then PositiveIntegers(NumbersOf(raw.value.elems)) else []
  }

  /**
   * `parseProductIds(metadataValue)`: an absent or empty value, text that
   * `JSON.parse` rejects, or a value that is not an array all give [].
   */
  function ParseProductIds(metadataValue: Option<string>): seq<int> {
    if metadataValue.None? || metadataValue.value == [] then []
    else
      match Parse(metadataValue.value)
      case None => []
      case Some(j) => if j.JArray? then PositiveIntegers(NumbersOf(j.elems)) else []
  }

  /** An id is in the filtered list exactly when some element converts to it. */
  lemma {:induction false} PositiveIntegersMembers(ns: seq<Num>, x: int)
    ensures x in PositiveIntegers(ns) <==>
            exists k :: 0 <= k < |ns| && IsPositiveInteger(ns[k]) && ns[k].v == x as real
  {
    if ns != [] {
      PositiveIntegersMembers(ns[1..], x);
      var head := if IsPositiveInteger(ns[0]) then [ns[0].v.Floor] else [];
      assert PositiveIntegers(ns) == head + PositiveIntegers(ns[1..]);
      if x in PositiveIntegers(ns[1..]) {
        var k :| 0 <= k < |ns[1..]| && IsPositiveInteger(ns[1..][k]) && ns[1..][k].v == x as real;
        assert ns[k + 1] == ns[1..][k];
      }
      if exists k :: 0 <= k < |ns| && IsPositiveInteger(ns[k]) && ns[k].v == x as real {
        var k :| 0 <= k < |ns| && IsPositiveInteger(ns[k]) && ns[k].v == x as real;
        if k > 0 {
          assert ns[1..][k - 1] == ns[k];
        }
      }
    }
  }

  /** The filter keeps order: filtering a concatenation concatenates the results. */
  lemma {:induction false} PositiveIntegersAppend(a: seq<Num>, b: seq<Num>)
    ensures PositiveIntegers(a + b) == PositiveIntegers(a) + PositiveIntegers(b)
  {
    if a != [] {
      assert (a + b)[0] == a[0] && (a + b)[1..] == a[1..] + b;
      PositiveIntegersAppend(a[1..], b);
      var head := if IsPositiveInteger(a[0]) then [a[0].v.Floor] else [];
      assert PositiveIntegers(a + b) == head + PositiveIntegers(a[1..] + b);
      assert PositiveIntegers(a) == head + PositiveIntegers(a[1..]);
      AppendAssoc(head, PositiveIntegers(a[1..]), PositiveIntegers(b));
    } else {
      EmptyAppend(b);
    }
  }

  /** A list of positive integers passes through the filter unchanged. */
  lemma {:induction false} PositiveIntegersOfPositive(xs: seq<int>)
    requires forall k :: 0 <= k < |xs| ==> xs[k] > 0
    ensures PositiveIntegers(NumbersOf(Numbers(xs))) == xs
  {
    if xs != [] {
      var ns := NumbersOf(Numbers(xs));
      assert ns[0] == Finite(xs[0] as real);
      assert ns[1..] == NumbersOf(Numbers(xs[1..]));
      PositiveIntegersOfPositive(xs[1..]);
      assert [xs[0]] + xs[1..] == xs;
    }
  }

  /** Normalising an already normalised list changes nothing. */
  lemma NormalizeIdempotent(raw: Option<Json>)
    ensures NormalizeProductIds(Some(JArray(Numbers(NormalizeProductIds(raw))))) == NormalizeProductIds(raw)
  {
    PositiveIntegersOfPositive(NormalizeProductIds(raw));
  }

  /**
   * The metadata round trip: what the checkout route writes with
   * `JSON.stringify(productIds)` the reconciler reads back as the same list.
   */
  lemma MetadataRoundTrip(raw: Option<Json>)
    ensures ParseProductIds(Some(IntArrayText(NormalizeProductIds(raw)))) == NormalizeProductIds(raw)
  {
    var ids := NormalizeProductIds(raw);
    IntArrayRoundTrip(ids);
    PositiveIntegersOfPositive(ids);
  }
}

/**
 * Grouping a product-id list into quantities, as both the checkout route
 * and the reconciler do with a JavaScript `Map`: one key per distinct id,
 * in order of first occurrence, mapped to its number of occurrences.
 */
module Quantities {

  /** How many times `x` occurs in `ids`. */
  function Count(ids: seq<int>, x: int): (n: nat)
    ensures n <= |ids|
    ensures n > 0 <==> x in ids
  {
    if ids == [] then 0
    else
      assert ids == ids[..|ids| - 1] + [ids[|ids| - 1]];
      Count(ids[..|ids| - 1], x) + (if ids[|ids| - 1] == x then 1 else 0)
  }

  /** The distinct ids in order of first occurrence (the key order of a `Map`). */
  function Distinct(ids: seq<int>): (ks: seq<int>)
    ensures forall x :: x in ks <==> x in ids
    ensures forall i, j :: 0 <= i < j < |ks| ==> ks[i] != ks[j]
  {
    if ids == [] then []
    else
      assert ids == ids[..|ids| - 1] + [ids[|ids| - 1]];
      var ks := Distinct(ids[..|ids| - 1]);
      if ids[|ids| - 1] in ks then ks else ks + [ids[|ids| - 1]]
  }

  /** The quantities of the keys `ks`, added up. */
  function SumCounts(ids: seq<int>, ks: seq<int>): nat {
    if ks == [] then 0 else SumCounts(ids, ks[..|ks| - 1]) + Count(ids, ks[|ks| - 1])
  }

  /** One more id adds one to the total of any distinct key list that contains it. */
  lemma {:induction false} SumCountsSnoc(p: seq<int>, y: int, ks: seq<int>)
    requires forall i, j :: 0 <= i < j < |ks| ==> ks[i] != ks[j]
    ensures SumCounts(p + [y], ks) == SumCounts(p, ks) + (if y in ks then 1 else 0)
  {
    if ks != [] {
      var init := ks[..|ks| - 1];
      assert (p + [y])[..|p + [y]| - 1] == p;
      assert ks == init + [ks[|ks| - 1]];
      SumCountsSnoc(p, y, init);
    }
  }

  /** The quantities of all distinct ids add up to the length of the list. */
  lemma {:induction false} QuantitiesSumToLength(ids: seq<int>)
    ensures SumCounts(ids, Distinct(ids)) == |ids|
  {
    if ids != [] {
      var p := ids[..|ids| - 1];
      var y := ids[|ids| - 1];
      assert ids == p + [y];
      QuantitiesSumToLength(p);
      SumCountsSnoc(p, y, Distinct(p));
      if y !in Distinct(p) {
        var ks := Distinct(p) + [y];
        assert ks[..|ks| - 1] == Distinct(p);
      }
    }
  }

  /**
   * The loop `for (id of ids) map.set(id, (map.get(id) || 0) + 1)`: the
   * keys in insertion order and the count of each.
   */
  method GroupQuantities(ids: seq<int>) returns (keys: seq<int>, counts: map<int, nat>)
    ensures keys == Distinct(ids)
    ensures forall x :: x in counts <==> x in ids
    ensures forall x :: x in counts ==> counts[x] == Count(ids, x)
  {
    keys := [];
    counts := map[];
    for i := 0 to |ids|
      invariant keys == Distinct(ids[..i])
      invariant forall x :: x in counts <==> x in ids[..i]
      invariant forall x :: x in counts ==> counts[x] == Count(ids[..i], x)
    {
      var id := ids[i];
      assert ids[..i + 1][..i] == ids[..i];
      var current := if id in counts then counts[id] else 0;
      if id !in counts {
        keys := keys + [id];
      }
      counts := counts[id := current + 1];
    }
    assert ids[..|ids|] == ids;
  }
}

/**
 * The public catalogue: `GET /` lists the active products newest id
 * first, either the three-item list of the home page or one page of a
 * paginated listing with the total count; `GET /:id` reads one active
 * product.  The `products` table is a map keyed by its SERIAL id.
 */
module Catalog {
  import opened Wrappers
  import opened JsText
  import opened JsNumber
  import opened PgInt4

  datatype Product = Product(title: string, composer: string, priceCents: int, active: bool)

  datatype Reply =
    | Legacy(rows: seq<(nat, Product)>)
    | Paged(items: seq<(nat, Product)>, total: nat)
    | Found(row: (nat, Product))
    | Error(status: nat, message: string)

  const LegacyLimit: nat := 3
  const ListFailed := Error(500, "Failed to retrieve music posts")
  const NotFound := Error(404, "Music piece not found")
  const LookupFailed := Error(500, "Failed to retrieve music piece")

  // ---------------------------------------------------------------------
  // The query parameters
  // ---------------------------------------------------------------------

  /** `parseInt(req.query.page) || 1`: an absent, non-numeric or zero page is page 1; a negative page is kept. */
  function PageOf(page: Option<string>): (p: int)
    ensures p != 0
  {
    var n := if page.None? then NaN else ParseInt(page.value);
    if n.Finite? && n.v != 0.0 then n.v.Floor else 1
  }

  /**
   * `req.query.pageSize ? parseInt(req.query.pageSize) : null`, then
   * `!pageSize`: `None` selects the legacy listing (absent, empty,
   * non-numeric or zero), otherwise the parsed size, which may be negative.
   */
  function PageSizeOf(pageSize: Option<string>): (size: Option<int>)
    ensures size.Some? ==> size.value != 0
  {
    if pageSize.None? || pageSize.value == "" then None
    else
      var n := ParseInt(pageSize.value);
      if n.Finite? && n.v != 0.0 then Some(n.v.Floor) else None
  }

  /** `(page - 1) * pageSize`. */
  function Offset(page: int, size: int): int {
    (page - 1) * size
  }

  /** A page number written by `String(n)` is read back as `n`; page 1 is the default. */
  lemma PageOfSpec(n: int)
    ensures PageOf(None) == 1 && PageOf(Some("")) == 1 && PageOf(Some("0")) == 1
    ensures n != 0 ==> PageOf(Some(DecimalString(n))) == n
    ensures PageSizeOf(None) == None && PageSizeOf(Some("")) == None && PageSizeOf(Some("0")) == None
    ensures n != 0 ==> PageSizeOf(Some(DecimalString(n))) == Some(n)
  {
    ParseIntOfDecimal(n);
    ParseIntOfDecimal(0);
    assert DecimalString(0) == "0";
  }

  // ---------------------------------------------------------------------
  // Integer parameters as PostgreSQL reads them
  // ---------------------------------------------------------------------

  /** The white space `int4in` skips around a number. */
  predicate IsPgSpace(c: char) {
    c == ' ' || c == '\t' || c == '\n' || c == '\r' || c as int == 0x0B || c as int == 0x0C
  }

  function SkipSpace(s: string, i: nat): (j: nat)
    requires i <= |s|
    ensures i <= j <= |s|
    ensures forall k :: i <= k < j ==> IsPgSpace(s[k])
    ensures j == |s| || !IsPgSpace(s[j])
    decreases |s| - i
  {
    if i < |s| && IsPgSpace(s[i]) then SkipSpace(s, i + 1) else i
  }

  /**
   * The text of a parameter bound to an `INTEGER` column: optional white
   * space, an optional sign, one or more decimal digits, optional white
   * space, and a value within 32 bits; anything else is an error.
   */
  function PgInteger(s: string): (r: Option<int>)
    ensures r.Some? ==> InInt4(r.value)
  {
    var a := SkipSpace(s, 0);
    var neg := a < |s| && s[a] == '-';
    var start := if a < |s| && (s[a] == '-' || s[a] == '+') then a + 1 else a;
    var k := DigitRun(s, start, 10);
    if k == 0 || SkipSpace(s, start + k) != |s| then None
    else
      var m: int := DigitsIn(s, start, start + k, 10);
      var v := if neg then -m else m;
      if InInt4(v) then Some(v) else None
  }

  /** An id written by `String(n)` is accepted as `n` when it fits 32 bits, and refused otherwise. */
  lemma PgIntegerOfDecimal(n: int)
    ensures PgInteger(DecimalString(n)) == if InInt4(n) then Some(n) else None
  {
    var s := DecimalString(n);
    var m: nat := if n < 0 then -n else n;
    var b := if n < 0 then 1 else 0;
    DecimalStringParts(n);
    NatDigitsRunAt(s, b, m);
    NatDigitsValueAt(s, b, m);
    AtChar(s, b, NatDigits(m), 0);
    assert !IsPgSpace(s[0]);
    assert SkipSpace(s, 0) == 0;
    var k := DigitRun(s, b, 10);
    assert b + k == |s|;
    assert SkipSpace(s, b + k) == |s|;
    SignedValue(n, m, DigitsIn(s, b, b + k, 10));
  }

  lemma SignedValue(n: int, m: nat, d: int)
    requires m == (if n < 0 then -n else n) && d == m
    ensures (if n < 0 then -d else d) == n
  {
  }

  // ---------------------------------------------------------------------
  // The active products, id descending
  // ---------------------------------------------------------------------

  ghost function ActiveIds(products: map<nat, Product>): set<nat> {
    set id | id in products && products[id].active
  }

  /** The largest id of a non-empty set. */
  lemma {:induction false} Largest(ids: set<nat>) returns (m: nat)
    requires ids != {}
    ensures m in ids && forall x :: x in ids ==> x <= m
    decreases |ids|
  {
    var y :| y in ids;
    var rest := ids - {y};
    if rest == {} {
      m := y;
      forall x | x in ids ensures x <= m {
        assert x !in rest;
      }
    } else {
      var r := Largest(rest);
      m := if y > r then y else r;
      forall x | x in ids ensures x <= m {
        if x != y {
          assert x in rest;
        }
      }
    }
  }

  lemma MaxExists(ids: set<nat>)
    requires ids != {}
    ensures exists m :: m in ids && forall x :: x in ids ==> x <= m
  {
    var m := Largest(ids);
    assert m in ids && forall x :: x in ids ==> x <= m;
  }

  /** `ORDER BY id DESC` over a set of ids. */
  ghost function Descending(ids: set<nat>): seq<nat>
    decreases |ids|
  {
    if ids == {} then []
    else
      MaxExists(ids);
      var m :| m in ids && forall x :: x in ids ==> x <= m;
      [m] + Descending(ids - {m})
  }

  /** The ordered ids are the set's, each once, strictly decreasing. */
  lemma {:induction false} DescendingSpec(ids: set<nat>)
    ensures |Descending(ids)| == |ids|
    ensures forall x :: x in Descending(ids) <==> x in ids
    ensures forall i, j :: 0 <= i < j < |Descending(ids)| ==> Descending(ids)[i] > Descending(ids)[j]
    decreases |ids|
  {
    if ids != {} {
      var r := Descending(ids);
      var m := r[0];
      var rest := Descending(ids - {m});
      assert r == [m] + rest;
      DescendingSpec(ids - {m});
      forall i, j | 0 <= i < j < |r| ensures r[i] > r[j] {
        if i > 0 {
          assert r[i] == rest[i - 1] && r[j] == rest[j - 1];
        } else {
          assert r[j] == rest[j - 1] && r[j] in ids - {m};
        }
      }
    }
  }

  /** The active ids, newest first. */
  ghost function ActiveDesc(products: map<nat, Product>): (ids: seq<nat>)
    ensures forall i :: 0 <= i < |ids| ==> ids[i] in products
  {
    var ids := Descending(ActiveIds(products));
    DescendingSpec(ActiveIds(products));
    assert forall i :: 0 <= i < |ids| ==> ids[i] in ids;
    ids
  }

  /** The rows the query returns for ids of the table. */
  function RowsOf(products: map<nat, Product>, ids: seq<nat>): (rows: seq<(nat, Product)>)
    requires forall i :: 0 <= i < |ids| ==> ids[i] in products
    ensures |rows| == |ids|
  {
    seq(|ids|, i requires 0 <= i < |ids| => (ids[i], products[ids[i]]))
  }

  /** `LIMIT limit OFFSET offset` over ids already in order. */
  function Window(ids: seq<nat>, offset: nat, limit: nat): (w: seq<nat>)
    ensures |w| <= limit
  {
    if offset >= |ids| then [] else ids[offset..if offset + limit <= |ids| then offset + limit else |ids|]
  }

  // ---------------------------------------------------------------------
  // The handlers
  // ---------------------------------------------------------------------

  /**
   * `GET /`: the legacy three-item list when no usable page size is given,
   * otherwise the count and then the page; PostgreSQL refuses a negative
   * `LIMIT` or `OFFSET`, which is a 500 like any failed query.
   */
  ghost function ListProducts(products: map<nat, Product>, page: Option<string>, pageSize: Option<string>, dbFails: bool): Reply {
    var ids := ActiveDesc(products);
    var size := PageSizeOf(pageSize);
    if dbFails then ListFailed
    else if size.None? then Legacy(RowsOf(products, Window(ids, 0, LegacyLimit)))
    else
      var offset := Offset(PageOf(page), size.value);
      if size.value < 0 || offset < 0 then ListFailed
      else Paged(RowsOf(products, Window(ids, offset, size.value)), |ActiveIds(products)|)
  }

  /** `GET /:id`: the product when it exists and is active. */
  function GetProduct(products: map<nat, Product>, id: string, dbFails: bool): Reply {
    var key := PgInteger(id);
    if dbFails || key.None? then LookupFailed
    else if key.value < 0 || key.value !in products || !products[key.value].active then NotFound
    else Found((key.value, products[key.value]))
  }

  // ---------------------------------------------------------------------
  // Properties
  // ---------------------------------------------------------------------

  /** Window of ordered ids keeps the order and takes ids from the listing only. */
  lemma WindowOf(ids: seq<nat>, offset: nat, limit: nat)
    ensures var w := Window(ids, offset, limit);
      (forall i :: 0 <= i < |w| ==> offset + i < |ids| && w[i] == ids[offset + i])
      && |w| == (if offset >= |ids| then 0 else if offset + limit <= |ids| then limit else |ids| - offset)
  {
  }

  /** The rows of a window of the listing: in listing order, active, at most `limit` of them. */
  lemma WindowRows(products: map<nat, Product>, offset: nat, limit: nat)
    ensures var ids := ActiveDesc(products);
      var rows := RowsOf(products, Window(ids, offset, limit));
      |rows| <= limit
      && |rows| == (if offset >= |ids| then 0 else if offset + limit <= |ids| then limit else |ids| - offset)
      && (forall i :: 0 <= i < |rows| ==>
            offset + i < |ids| && rows[i].0 == ids[offset + i] && rows[i].1 == products[rows[i].0] && rows[i].1.active)
      && (forall i, j :: 0 <= i < j < |rows| ==> rows[i].0 > rows[j].0)
  {
    var ids := ActiveDesc(products);
    DescendingSpec(ActiveIds(products));
    var rows := RowsOf(products, Window(ids, offset, limit));
    WindowOf(ids, offset, limit);
    forall i | 0 <= i < |rows| ensures rows[i].1.active {
      assert ids[offset + i] in ActiveIds(products);
    }
  }

  /**
   * The legacy listing is the (at most) three active products with the
   * highest ids, highest first: every active product whose id is at least
   * that of one it shows is shown too.
   */
  lemma LegacyListing(products: map<nat, Product>, page: Option<string>, pageSize: Option<string>)
    requires PageSizeOf(pageSize).None?
    ensures var reply := ListProducts(products, page, pageSize, false);
      reply.Legacy?
      && |reply.rows| == (if |ActiveIds(products)| < LegacyLimit then |ActiveIds(products)| else LegacyLimit)
      && (forall i :: 0 <= i < |reply.rows| ==>
            reply.rows[i].0 in products && reply.rows[i].1 == products[reply.rows[i].0] && reply.rows[i].1.active)
      && (forall i, j :: 0 <= i < j < |reply.rows| ==> reply.rows[i].0 > reply.rows[j].0)
      && (forall id, i :: id in ActiveIds(products) && 0 <= i < |reply.rows| && id >= reply.rows[i].0
            ==> exists j :: 0 <= j < |reply.rows| && reply.rows[j].0 == id)
  {
    var ids := ActiveDesc(products);
    var rows := RowsOf(products, Window(ids, 0, LegacyLimit));
    WindowRows(products, 0, LegacyLimit);
    DescendingSpec(ActiveIds(products));
    forall id, i | id in ActiveIds(products) && 0 <= i < |rows| && id >= rows[i].0
      ensures exists j :: 0 <= j < |rows| && rows[j].0 == id
    {
      var k :| 0 <= k < |ids| && ids[k] == id;
      assert k <= i;
      assert rows[k].0 == id;
    }
  }

  /**
   * A page holds the active products from position `(page - 1) * pageSize`
   * on, at most `pageSize` of them, newest first; `total` counts every
   * active product whatever the page.
   */
  lemma PagedListing(products: map<nat, Product>, page: Option<string>, pageSize: Option<string>)
    requires PageSizeOf(pageSize).Some?
    ensures var size := PageSizeOf(pageSize).value;
      var offset := Offset(PageOf(page), size);
      var reply := ListProducts(products, page, pageSize, false);
      (reply.Paged? <==> size > 0 && offset >= 0)
      && (reply.Paged? ==>
            reply.total == |ActiveIds(products)|
            && |reply.items| <= size
            && (forall i :: 0 <= i < |reply.items| ==>
                  offset + i < |ActiveDesc(products)| && reply.items[i].0 == ActiveDesc(products)[offset + i]
                  && reply.items[i].1 == products[reply.items[i].0] && reply.items[i].1.active)
            && (forall i, j :: 0 <= i < j < |reply.items| ==> reply.items[i].0 > reply.items[j].0))
      && (!reply.Paged? ==> reply == ListFailed)
  {
    var size := PageSizeOf(pageSize).value;
    var offset := Offset(PageOf(page), size);
    if size > 0 && offset >= 0 {
      WindowRows(products, offset, size);
    }
  }

  /** The total does not depend on the page asked for. */
  lemma TotalIndependentOfPage(products: map<nat, Product>, page1: Option<string>, page2: Option<string>, pageSize: Option<string>)
    requires ListProducts(products, page1, pageSize, false).Paged? && ListProducts(products, page2, pageSize, false).Paged?
    ensures ListProducts(products, page1, pageSize, false).total == ListProducts(products, page2, pageSize, false).total
  {
  }

  /** Consecutive windows of the same size join into one window. */
  lemma {:induction false} WindowsJoin(ids: seq<nat>, size: nat, k: nat)
    ensures Window(ids, 0, k * size) + Window(ids, k * size, size) == Window(ids, 0, (k + 1) * size)
  {
    var a := Window(ids, 0, k * size);
    var b := Window(ids, k * size, size);
    var c := Window(ids, 0, (k + 1) * size);
    assert (k + 1) * size == k * size + size;
    WindowOf(ids, 0, k * size);
    WindowOf(ids, k * size, size);
    WindowOf(ids, 0, (k + 1) * size);
    assert |a + b| == |c|;
    forall i | 0 <= i < |c| ensures (a + b)[i] == c[i] {
      if i < |a| {
      } else {
        assert (a + b)[i] == b[i - |a|];
      }
    }
  }

  /** Pages 1 to k of size `size`, read one after another, are the first `k * size` active ids in order. */
  lemma {:induction false} PagesTile(ids: seq<nat>, size: nat, k: nat)
    ensures Pages(ids, size, k) == Window(ids, 0, k * size)
  {
    if k > 0 {
      PagesTile(ids, size, k - 1);
      WindowsJoin(ids, size, k - 1);
    }
  }

  /** The ids of pages 1 to k, concatenated. */
  function Pages(ids: seq<nat>, size: nat, k: nat): seq<nat> {
    if k == 0 then [] else Pages(ids, size, k - 1) + Window(ids, Offset(k, size), size)
  }

  /**
   * Reading pages 1, 2, ... of a fixed size shows every active product
   * exactly once, newest first: once `k * size` reaches the total, the
   * pages read so far are the whole listing.
   */
  lemma PagesCoverListing(products: map<nat, Product>, size: nat, k: nat)
    requires k * size >= |ActiveIds(products)|
    ensures Pages(ActiveDesc(products), size, k) == ActiveDesc(products)
  {
    var ids := ActiveDesc(products);
    DescendingSpec(ActiveIds(products));
    PagesTile(ids, size, k);
    if |ids| > 0 {
      assert ids[0..|ids|] == ids;
    }
  }

  /**
   * The single lookup finds exactly the active products; an inactive or
   * unknown id is 404, and an id PostgreSQL cannot read as an integer
   * makes the query fail.
   */
  lemma GetProductSpec(products: map<nat, Product>, id: string)
    ensures var reply := GetProduct(products, id, false);
      var key := PgInteger(id);
      (reply.Found? <==> key.Some? && key.value >= 0 && key.value in products && products[key.value].active)
      && (reply.Found? ==> reply.row == (key.value, products[key.value]))
      && (reply == NotFound <==> key.Some? && !(key.value >= 0 && key.value in products && products[key.value].active))
      && (reply == LookupFailed <==> key.None?)
  {
  }

  /** Looking a listed product up by its id finds it. */
  lemma ListedProductFound(products: map<nat, Product>, id: nat)
    requires id in products && products[id].active && InInt4(id)
    ensures GetProduct(products, DecimalString(id), false) == Found((id, products[id]))
  {
    PgIntegerOfDecimal(id);
  }
}

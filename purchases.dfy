/**
 * The purchase routes: the caller's purchase list, and the download of a
 * purchased product's file.  Entitlement is read from the reconciler's
 * tables; `path.resolve` and `fs.access` are function parameters.
 */
module Purchases {
  import opened Wrappers
  import opened JsText
  import opened JsNumber
  import opened PurchaseStore
  import opened PgInt4

  /** The `products` columns the purchase routes read. */
  datatype ProductInfo = ProductInfo(title: string, composer: string, arranger: string, thumbnailPath: Option<string>)

  /** A `product_files` row; an absent row reads as two nulls. */
  datatype Files = Files(pdfPath: Option<string>, mp3Path: Option<string>)

  /** One row of the purchase list. */
  datatype PurchaseRow = PurchaseRow(
    id: nat, quantity: nat, priceCents: int, purchaseDate: int,
    productId: int, title: string, composer: string, arranger: string, thumbnailPath: Option<string>)

  datatype Format = Pdf | Mp3

  datatype Reply = Download(path: string, filename: string) | Error(status: nat, message: string)

  const ListFailed := Error(500, "Failed to load purchases")
  const InvalidId := Error(400, "Invalid product ID")
  const NotPurchased := Error(404, "Purchased product not found")
  const InvalidPath := Error(403, "Invalid file path")
  const FileNotFound := Error(404, "File not found")
  const DownloadFailed := Error(500, "Failed to download file")

  // ----- The purchase list -----

  /** Item `id` belongs to a paid order of `user` and its product exists (the two inner joins and the filter). */
  predicate Listed(t: Tables, products: map<int, ProductInfo>, user: int, id: nat) {
    id in t.items && t.items[id].orderId in t.orders
    && t.orders[t.items[id].orderId].userId == user && t.orders[t.items[id].orderId].status == Paid
    && t.items[id].productId in products
  }

  /** `o.created_at` of an item's order. */
  function PurchaseDate(t: Tables, id: nat): int {
    if id in t.items && t.items[id].orderId in t.orders then t.orders[t.items[id].orderId].createdAt else 0
  }

  /** `ORDER BY o.created_at DESC, oi.id DESC`: item `a` comes before item `b`. */
  predicate Later(date: nat -> int, a: nat, b: nat) {
    date(a) > date(b) || (date(a) == date(b) && a > b)
  }

  /** `Later` is a strict total order on item ids. */
  lemma LaterTotal(date: nat -> int, a: nat, b: nat, c: nat)
    ensures a != b ==> Later(date, a, b) || Later(date, b, a)
    ensures Later(date, a, b) && Later(date, b, c) ==> Later(date, a, c)
    ensures !(Later(date, a, b) && Later(date, b, a))
  {
  }

  /** Every set of item ids has a first item in the listing order. */
  lemma {:induction false} LatestExists(ids: set<nat>, date: nat -> int)
    requires ids != {}
    ensures exists m :: m in ids && forall x :: x in ids && x != m ==> Later(date, m, x)
    decreases |ids|
  {
    var y :| y in ids;
    if ids - {y} == {} {
      assert ids == {y};
    } else {
      LatestExists(ids - {y}, date);
      var m :| m in ids - {y} && forall x :: x in ids - {y} && x != m ==> Later(date, m, x);
      if Later(date, m, y) {
        forall x | x in ids && x != m ensures Later(date, m, x) {
          if x != y {
            assert x in ids - {y};
          }
        }
      } else {
        LaterTotal(date, y, m, m);
        forall x | x in ids && x != y ensures Later(date, y, x) {
          if x != m {
            assert x in ids - {y};
            LaterTotal(date, y, m, x);
          }
        }
      }
    }
  }

  /** The item ids in listing order. */
  ghost function SortLatest(ids: set<nat>, date: nat -> int): (r: seq<nat>)
    decreases |ids|
  {
    if ids == {} then []
    else
      LatestExists(ids, date);
      var m :| m in ids && forall x :: x in ids && x != m ==> Later(date, m, x);
      [m] + SortLatest(ids - {m}, date)
  }

  /** The sorted list holds each id of the set exactly once, latest first. */
  lemma {:induction false} SortLatestSpec(ids: set<nat>, date: nat -> int)
    ensures |SortLatest(ids, date)| == |ids|
    ensures forall x :: x in SortLatest(ids, date) <==> x in ids
    ensures forall i, j :: 0 <= i < j < |SortLatest(ids, date)| ==>
      Later(date, SortLatest(ids, date)[i], SortLatest(ids, date)[j])
    decreases |ids|
  {
    if ids != {} {
      var r := SortLatest(ids, date);
      var m := r[0];
      var rest := SortLatest(ids - {m}, date);
      assert r == [m] + rest;
      SortLatestSpec(ids - {m}, date);
      forall i, j | 0 <= i < j < |r| ensures Later(date, r[i], r[j]) {
        if i > 0 {
          assert r[i] == rest[i - 1] && r[j] == rest[j - 1];
        } else {
          assert r[j] == rest[j - 1] && r[j] in ids - {m};
        }
      }
    }
  }

  /** The row the query returns for a listed item. */
  function RowOf(t: Tables, products: map<int, ProductInfo>, id: nat): PurchaseRow
    requires id in t.items && t.items[id].orderId in t.orders && t.items[id].productId in products
  {
    var item := t.items[id];
    var p := products[item.productId];
    PurchaseRow(id, item.quantity, item.unitPriceCents, t.orders[item.orderId].createdAt,
                item.productId, p.title, p.composer, p.arranger, p.thumbnailPath)
  }

  /** The ids of the caller's listed items, unordered. */
  ghost function ListedSet(t: Tables, products: map<int, ProductInfo>, user: int): set<nat> {
    set id | id in t.items && Listed(t, products, user, id)
  }

  /** `PurchaseDate` as the sort key. */
  function DateOf(t: Tables): nat -> int {
    (id: nat) => PurchaseDate(t, id)
  }

  /** The ids of the caller's listed items, latest purchase first, ties by item id. */
  ghost function ListedIds(t: Tables, products: map<int, ProductInfo>, user: int): seq<nat> {
    SortLatest(ListedSet(t, products, user), DateOf(t))
  }

  /** The sorted ids are exactly the listed items, latest first. */
  lemma ListedIdsSpec(t: Tables, products: map<int, ProductInfo>, user: int)
    ensures forall i :: 0 <= i < |ListedIds(t, products, user)| ==> Listed(t, products, user, ListedIds(t, products, user)[i])
    ensures forall id :: Listed(t, products, user, id) ==> id in ListedIds(t, products, user)
    ensures forall i, j :: 0 <= i < j < |ListedIds(t, products, user)| ==>
      Later(DateOf(t), ListedIds(t, products, user)[i], ListedIds(t, products, user)[j])
  {
    var ids := ListedIds(t, products, user);
    SortLatestSpec(ListedSet(t, products, user), DateOf(t));
    forall i | 0 <= i < |ids| ensures Listed(t, products, user, ids[i]) {
      assert ids[i] in ids;
    }
    forall id | Listed(t, products, user, id) ensures id in ids {
      assert id in ListedSet(t, products, user);
    }
  }

  /** `GET /purchases`: the caller's rows, or 500 when the query fails. */
  ghost function ListPurchases(t: Tables, products: map<int, ProductInfo>, user: int, dbFails: bool): Result<seq<PurchaseRow>, Reply> {
    if dbFails || !InInt4(user) then Err(ListFailed)
    else
      var ids := ListedIds(t, products, user);
      ListedIdsSpec(t, products, user);
      Ok(seq(|ids|, i requires 0 <= i < |ids| && Listed(t, products, user, ids[i]) => RowOf(t, products, ids[i])))
  }

  /**
   * The list holds exactly one row per item of a paid order of the
   * caller whose product exists, ordered by purchase date and then item
   * id, both descending.
   */
  lemma ListPurchasesSpec(t: Tables, products: map<int, ProductInfo>, user: int, rows: seq<PurchaseRow>)
    requires ListPurchases(t, products, user, false) == Ok(rows)
    ensures forall id :: (exists i :: 0 <= i < |rows| && rows[i].id == id) <==> Listed(t, products, user, id)
    ensures forall i :: 0 <= i < |rows| ==> Listed(t, products, user, rows[i].id) && rows[i] == RowOf(t, products, rows[i].id)
    ensures forall i, j :: 0 <= i < j < |rows| ==>
      rows[i].purchaseDate > rows[j].purchaseDate || (rows[i].purchaseDate == rows[j].purchaseDate && rows[i].id > rows[j].id)
  {
    var ids := ListedIds(t, products, user);
    ListedIdsSpec(t, products, user);
    assert |rows| == |ids| && forall i :: 0 <= i < |ids| ==> rows[i] == RowOf(t, products, ids[i]);
    forall id | Listed(t, products, user, id) ensures exists i :: 0 <= i < |rows| && rows[i].id == id {
      var i :| 0 <= i < |ids| && ids[i] == id;
      assert rows[i].id == id;
    }
    forall i, j | 0 <= i < j < |rows|
      ensures rows[i].purchaseDate > rows[j].purchaseDate || (rows[i].purchaseDate == rows[j].purchaseDate && rows[i].id > rows[j].id)
    {
      assert Later(DateOf(t), ids[i], ids[j]);
      assert rows[i].purchaseDate == PurchaseDate(t, ids[i]) && rows[j].purchaseDate == PurchaseDate(t, ids[j]);
    }
  }

  // ----- The download -----

  /** `String(format || 'pdf').toLowerCase() === 'mp3'`. */
  function FormatOf(query: Option<string>): (f: Format)
    ensures f == Mp3 <==> query.Some? && ToLower(query.value) == "mp3"
  {
    var requested := if query.None? || query.value == [] then "pdf" else query.value;
    assert ToLower("pdf")[0] == 'p';
    if ToLower(requested) == "mp3" then Mp3 else Pdf
  }

  /** A character the filename keeps: `[a-zA-Z0-9-_]`. */
  predicate SafeChar(c: char) {
    'a' <= c <= 'z' || 'A' <= c <= 'Z' || '0' <= c <= '9' || c == '-' || c == '_'
  }

  predicate AllSafe(s: string) {
    forall i :: 0 <= i < |s| ==> SafeChar(s[i])
  }

  /**
   * `replace(/[^a-zA-Z0-9-_]+/g, '_')`, left to right; `inRun` says that
   * the previous character was already part of a replaced run.
   */
  function SanitizeFrom(s: string, inRun: bool): string {
    if s == [] then []
    else if SafeChar(s[0]) then [s[0]] + SanitizeFrom(s[1..], false)
    else (if inRun then [] else "_") + SanitizeFrom(s[1..], true)
  }

  function Sanitize(s: string): string {
    SanitizeFrom(s, false)
  }

  /** The replacement leaves only safe characters and never lengthens the text. */
  lemma {:induction false} SanitizeFromSafe(s: string, inRun: bool)
    ensures AllSafe(SanitizeFrom(s, inRun)) && |SanitizeFrom(s, inRun)| <= |s|
  {
    if s != [] {
      SanitizeFromSafe(s[1..], !SafeChar(s[0]));
    }
  }

  /** Text that is already safe is left as it is. */
  lemma {:induction false} SanitizeOfSafe(s: string, inRun: bool)
    requires AllSafe(s)
    ensures SanitizeFrom(s, inRun) == s
  {
    if s != [] {
      assert AllSafe(s[1..]) by {
        forall i | 0 <= i < |s[1..]| ensures SafeChar(s[1..][i]) {
          assert s[1..][i] == s[i + 1];
        }
      }
      SanitizeOfSafe(s[1..], false);
    }
  }

  /** Sanitizing twice is sanitizing once. */
  lemma SanitizeIdempotent(s: string)
    ensures Sanitize(Sanitize(s)) == Sanitize(s)
  {
    SanitizeFromSafe(s, false);
    SanitizeOfSafe(Sanitize(s), false);
  }

  /** A non-empty run of characters to replace becomes one `_`. */
  lemma {:induction false} SanitizeRun(u: string, inRun: bool)
    requires u != [] && forall i :: 0 <= i < |u| ==> !SafeChar(u[i])
    ensures SanitizeFrom(u, inRun) == (if inRun then [] else "_")
  {
    if |u| > 1 {
      SanitizeRun(u[1..], true);
    }
  }

  /** Text is replaced run by run: a split before a safe character splits the result. */
  lemma {:induction false} SanitizeSplit(x: string, y: string, inRun: bool)
    requires y != [] && SafeChar(y[0])
    ensures SanitizeFrom(x + y, inRun) == SanitizeFrom(x, inRun) + SanitizeFrom(y, false)
  {
    if x == [] {
      assert x + y == y;
    } else {
      var head := if SafeChar(x[0]) then [x[0]] else if inRun then [] else "_";
      assert (x + y)[0] == x[0] && (x + y)[1..] == x[1..] + y;
      assert SanitizeFrom(x + y, inRun) == head + SanitizeFrom(x[1..] + y, !SafeChar(x[0]));
      assert SanitizeFrom(x, inRun) == head + SanitizeFrom(x[1..], !SafeChar(x[0]));
      SanitizeSplit(x[1..], y, !SafeChar(x[0]));
    }
  }

  /** `music-<id>`. */
  function Fallback(productId: int): string {
    "music-" + DecimalString(productId)
  }

  /** The name before the extension: the title (or the fallback) trimmed and sanitized, the fallback if that is empty. */
  function Stem(title: string, productId: int): string {
    var base := if title != [] then title else Fallback(productId);
    var safe := Sanitize(Trim(base));
    if safe != [] then safe else Fallback(productId)
  }

  /** The download filename: the stem, then the extension of the format. */
  function Filename(title: string, productId: int, format: Format): string {
    Stem(title, productId) + (if format == Mp3 then ".mp3" else ".pdf")
  }

  /** The fallback name passes `trim` and the replacement unchanged. */
  lemma FallbackKept(productId: int)
    requires productId > 0
    ensures Sanitize(Trim(Fallback(productId))) == Fallback(productId)
  {
    var f := Fallback(productId);
    NatDigitsAreDigits(productId);
    TrimStartOfClean(f);
    TrimEndOfClean(f);
    assert AllSafe(f) by {
      forall i | 0 <= i < |f| ensures SafeChar(f[i]) {
        if i >= 6 {
          assert f[i] == NatDigits(productId)[i - 6];
        }
      }
    }
    SanitizeOfSafe(f, false);
  }

  /**
   * For a positive id the stem is the trimmed title with each run of
   * unsafe characters replaced by `_`, or `music-<id>` when that leaves
   * nothing; it is never empty and holds only safe characters.
   */
  lemma StemOf(title: string, productId: int)
    requires productId > 0
    ensures var safe := Sanitize(Trim(title));
      Stem(title, productId) == (if safe != [] then safe else Fallback(productId))
    ensures Stem(title, productId) != [] && AllSafe(Stem(title, productId))
  {
    FallbackKept(productId);
    SanitizeFromSafe(Trim(Fallback(productId)), false);
    if title == [] {
      assert Trim(title) == [];
    } else {
      SanitizeFromSafe(Trim(title), false);
    }
  }

  /** The filename is the stem followed by the four characters of the extension. */
  lemma FilenameShape(title: string, productId: int, format: Format)
    requires productId > 0
    ensures var name := Filename(title, productId, format);
      var ext := if format == Mp3 then ".mp3" else ".pdf";
      var safe := Sanitize(Trim(title));
      |name| > 4 && name[|name| - 4..] == ext
      && name[..|name| - 4] == (if safe != [] then safe else Fallback(productId))
      && AllSafe(name[..|name| - 4])
  {
    StemOf(title, productId);
    var stem := Stem(title, productId);
    var ext := if format == Mp3 then ".mp3" else ".pdf";
    var name := Filename(title, productId, format);
    assert name[..|name| - 4] == stem && name[|name| - 4..] == ext;
  }

  /** Some paid order of `user` has an item for the product. */
  predicate Entitled(t: Tables, user: int, productId: int) {
    exists id :: id in t.items && t.items[id].productId == productId && t.items[id].orderId in t.orders
      && t.orders[t.items[id].orderId].userId == user && t.orders[t.items[id].orderId].status == Paid
  }

  /** The stored path for the format; `None` for a missing `product_files` row or a null column. */
  function StoredPath(files: map<int, Files>, productId: int, format: Format): Option<string> {
    if productId !in files then None
    else if format == Mp3 then files[productId].mp3Path else files[productId].pdfPath
  }

  /** `resolved !== root && !resolved.startsWith(root + sep)` is false. */
  predicate Inside(resolved: string, root: string, sep: char) {
    resolved == root || StartsWith(resolved, root + [sep])
  }

  /**
   * `GET /purchases/:productId/download`.  `resolve` stands for
   * `path.resolve`, `present` for a successful `fs.access`, `dbFails` for
   * a failing table setup or query.
   */
  function DownloadReply(t: Tables, products: map<int, ProductInfo>, files: map<int, Files>, user: int,
                         param: string, query: Option<string>, dbFails: bool,
                         resolve: string -> string, present: string -> bool, sep: char): Reply
  {
    var n := StringToNumber(param);
    var format := FormatOf(query);
    if !IsPositiveInteger(n) then InvalidId
    else
      var productId := n.v.Floor;
      if dbFails || productId > Int4Max || !InInt4(user) then DownloadFailed
      else if productId !in products || !Entitled(t, user, productId) then NotPurchased
      else
        var stored := StoredPath(files, productId, format);
        if stored.None? || stored.value == [] then
          Error(404, "No " + (if format == Mp3 then "MP3" else "PDF") + " file available for this purchase")
        else
          var root := resolve("uploads");
          var resolved := resolve(stored.value);
          if !Inside(resolved, root, sep) then InvalidPath
          else if !present(resolved) then FileNotFound
          else Download(resolved, Filename(products[productId].title, productId, format))
  }

  /**
   * The download decision, branch by branch: a non-positive or non-integer
   * id is 400; a failing query or an id or subject outside `INTEGER` is
   * 500; an unknown product and an unpurchased one get the same 404; then
   * a missing or empty stored path is 404 for that format, a path that
   * resolves outside the uploads root is 403, an absent file is 404, and
   * otherwise the resolved file is sent under the title's safe filename.
   */
  lemma DownloadGate(t: Tables, products: map<int, ProductInfo>, files: map<int, Files>, user: int,
                     param: string, query: Option<string>, dbFails: bool,
                     resolve: string -> string, present: string -> bool, sep: char)
    ensures var r := DownloadReply(t, products, files, user, param, query, dbFails, resolve, present, sep);
      var n := StringToNumber(param);
      (r == InvalidId <==> !IsPositiveInteger(n))
      && (IsPositiveInteger(n) ==>
        (r == DownloadFailed <==> dbFails || n.v.Floor > Int4Max || !InInt4(user)))
      && (IsPositiveInteger(n) && !dbFails && n.v.Floor <= Int4Max && InInt4(user) ==>
        var productId := n.v.Floor;
        var format := FormatOf(query);
        var stored := StoredPath(files, productId, format);
        (r == NotPurchased <==> productId !in products || !Entitled(t, user, productId))
        && (productId in products && Entitled(t, user, productId) ==>
          if stored.None? || stored.value == [] then
            r == Error(404, "No " + (if format == Mp3 then "MP3" else "PDF") + " file available for this purchase")
          else if !Inside(resolve(stored.value), resolve("uploads"), sep) then r == InvalidPath
          else if !present(resolve(stored.value)) then r == FileNotFound
          else r.Download?))
      && (r.Download? ==>
        var productId := n.v.Floor;
        var format := FormatOf(query);
        IsPositiveInteger(n) && productId in products && Entitled(t, user, productId)
        && StoredPath(files, productId, format).Some?
        && r.path == resolve(StoredPath(files, productId, format).value)
        && Inside(r.path, resolve("uploads"), sep) && present(r.path)
        && r.filename == Filename(products[productId].title, productId, format))
  {
  }

  /**
   * A recorded paid session entitles its user to every listed product
   * that had a price, and entitlements are never lost afterwards.
   */
  lemma RecordedSessionEntitles(t: Tables, s: CheckoutSession, catalog: map<int, int>, fault: Fault, now: int,
                                t2: Tables, orderId: nat, p: int)
    requires ValidTables(t)
    requires (t2, Ok(Recorded(orderId))) == Reconcile(t, s, catalog, fault, now)
    requires s.paymentStatus == Some("paid")
    requires p in ProductIds.ParseProductIds(s.productIdsMeta) && p in catalog
    ensures Entitled(t2, UserIdOf(s).v.Floor, p)
  {
    ReconcileRecorded(t, s, catalog, fault, now, t2, orderId);
    ReconcilePreservesValid(t, s, catalog, fault, now, t2);
    var id :| id in t2.items && id !in t.items && t2.items[id].productId == p;
    assert t2.items[id].orderId == orderId;
  }

  /**
   * A session recorded while its payment was not yet `paid` stays
   * pending when the same session later arrives as paid: the second
   * insert meets `ON CONFLICT DO NOTHING`, so the order's status is never
   * updated and none of its items is ever listed or downloadable.
   */
  lemma AsyncSuccessStaysPending(t: Tables, s: CheckoutSession, catalog: map<int, int>, fault: Fault, now: int,
                                 t1: Tables, orderId: nat, catalog2: map<int, int>, fault2: Fault, now2: int,
                                 products: map<int, ProductInfo>, user: int)
    requires ValidTables(t)
    requires (t1, Ok(Recorded(orderId))) == Reconcile(t, s, catalog, fault, now)
    requires s.paymentStatus != Some("paid")
    ensures var t2 := Reconcile(t1, s.(paymentStatus := Some("paid")), catalog2, fault2, now2).0;
      orderId in t2.orders && t2.orders[orderId].status == Pending
      && forall id :: Listed(t2, products, user, id) ==> t2.items[id].orderId != orderId
  {
    var paid := s.(paymentStatus := Some("paid"));
    var ids := ProductIds.ParseProductIds(s.productIdsMeta);
    ReconcileRecorded(t, s, catalog, fault, now, t1, orderId);
    TransactOkRecords(t, NewOrderOf(s), ids, catalog, fault, now, t1, Ok(Recorded(orderId)));
    assert NewOrderOf(paid).sessionId == NewOrderOf(s).sessionId && NewOrderOf(paid).Fits();
    TransactReplay(t1, NewOrderOf(paid), ids, catalog2, fault2, now2);
  }

  /** Whatever the reconciler does, an entitlement it finds stays. */
  lemma ReconcileKeepsEntitlement(t: Tables, s: CheckoutSession, catalog: map<int, int>, fault: Fault, now: int,
                                  user: int, p: int)
    requires ValidTables(t) && Entitled(t, user, p)
    ensures Entitled(Reconcile(t, s, catalog, fault, now).0, user, p)
  {
    var t2 := Reconcile(t, s, catalog, fault, now).0;
    ReconcilePreservesValid(t, s, catalog, fault, now, t2);
    var id :| id in t.items && t.items[id].productId == p && t.items[id].orderId in t.orders
      && t.orders[t.items[id].orderId].userId == user && t.orders[t.items[id].orderId].status == Paid;
    assert t2.items[id] == t.items[id];
  }
}

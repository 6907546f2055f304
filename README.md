# Sheet-music store: purchases, tokens and credentials in Dafny

This project models the server-side core of a small sheet-music shop that sells
through Stripe Checkout, together with the browser's session store:

- **Catalogue** (`Catalog`). `GET /` lists active products newest first. It returns either the legacy three-item list or one page with a total. `GET /:id` reads one active product.
- **Checkout** (`Checkout`, `ProductIds`, `Quantities`). `POST /create-session` normalises the posted id list, groups it into quantities, rejects unknown products, and asks Stripe for a session. That session has one line item per product and the id list in its metadata.
- **Order reconciler** (`PurchaseStore`). This turns a completed checkout session into one `orders` row and one `order_items` row per distinct priced product, all in one transaction. The two tables are maps held by a `Store` class, with their SERIAL sequences.
- **Webhook** (`Webhook`). It checks the configuration and the signature, then calls the reconciler for the two checkout events.
- **Purchases** (`Purchases`). This covers the caller's purchase list and the download gate: format, entitlement, path containment and the sanitised filename.
- **Token service** (`Jwt`, `Base64Url`, `Utf8`, `JsonWrite`, `Json`). These build compact HS256 JSON Web Tokens (RFC 7519, section 3.2 of RFC 7518) from unpadded base64url parts (section 5 of RFC 4648), and verify them check by check.
- **Credential store** (`Credentials`). It covers e-mail normalisation, the `salt:hash` password format over scrypt (RFC 7914), the users table with its unique e-mail, and the register, login and profile handlers. A `UserStore` class holds the table.
- **Route guards** (`AuthMiddleware`). `requireAuth` parses `Authorization: Bearer <token>` (section 2.1 of RFC 6750) and stores the payload on a `Request` object. `requireAdmin` then demands the admin role.
- **Client session store** (`ClientAuth`). The `localStorage` entries are held by a `LocalStore` class, with the queries and the header the pages send.

The JavaScript built-ins these depend on are modelled too:
- `String.prototype.trim`, `toLowerCase` and `split` (`JsText`);
- `Number()` and `parseInt` (`JsNumber`);
- `JSON.parse` (`Json`) and `JSON.stringify` (`JsonWrite`);
- `Buffer` UTF-8 (`Utf8`) and base64 (`Base64Url`).

Every source-level state change is a method of a class:
- the order tables: `PurchaseStore.Store`;
- the users table: `Credentials.UserStore`;
- `req.user`: `AuthMiddleware.Request`;
- `localStorage`: `ClientAuth.LocalStore`.

Each such method is specified by a function of the old state, and the properties are proved about those functions.

The following are parameters of the functions:
- the database's failures;
- the clock;
- HMAC-SHA-256, scrypt and `randomBytes`;
- Stripe's `checkout.sessions.create` and `webhooks.constructEvent`;
- `path.resolve` and `fs.access`.

## Model

| member | source | states |
|---|---|---|
| ProductIds.NormalizeProductIds | deploy/backend/routes/checkoutRoutes.js:14-19 | a non-array body gives []; an array keeps, in order, the elements that `Number` converts to a positive integer (`PositiveIntegersMembers`) |
| ProductIds.ParseProductIds | deploy/backend/utils/purchaseStore.js:5-17 | an absent or empty value, text `JSON.parse` rejects, or a non-array gives []; an array gives its positive integers in order, and the checkout's own metadata parses back to its list (`MetadataRoundTrip`) |
| ProductIds.NormalizeIdempotent | deploy/backend/routes/checkoutRoutes.js:14-19 | normalising the written form of an already normalised list gives the same list |
| ProductIds.PositiveIntegersMembers | deploy/backend/routes/checkoutRoutes.js:16-18 | an id is kept exactly when some element converts with `Number` to that positive integer |
| ProductIds.PositiveIntegersAppend | deploy/backend/utils/purchaseStore.js:11-13 | the filter keeps order: filtering a concatenation is the concatenation of the filtered parts |
| ProductIds.PositiveIntegersOfPositive | deploy/backend/utils/purchaseStore.js:11-13 | a list of positive integers passes the map and filter unchanged, duplicates included |
| ProductIds.MetadataRoundTrip | deploy/backend/routes/checkoutRoutes.js:72-75 | `parseProductIds(JSON.stringify(ids))` of a normalised list gives back exactly that list |
| Quantities.Count | deploy/backend/utils/purchaseStore.js:73-76 | an id's count is at most the list length and is positive exactly when the id occurs |
| Quantities.Distinct | deploy/backend/utils/purchaseStore.js:73-76 | the map's keys are the ids of the list, each once |
| Quantities.QuantitiesSumToLength | deploy/backend/utils/purchaseStore.js:73-76 | the quantities of all distinct ids add up to the length of the list |
| Quantities.GroupQuantities | deploy/backend/routes/checkoutRoutes.js:37-40 | the loop yields the keys in first-occurrence order, and each key maps to its number of occurrences |
| PurchaseStore.StatusOf | deploy/backend/utils/purchaseStore.js:66 | the status is `paid` exactly when `payment_status` is `"paid"` |
| PurchaseStore.ItemRows | deploy/backend/utils/purchaseStore.js:113-127 | at most one item row per distinct key |
| PurchaseStore.ItemRowsShape | deploy/backend/utils/purchaseStore.js:113-127 | each item row is numbered from the sequence, belongs to the order, and holds a priced key's price and its quantity |
| PurchaseStore.ItemRowsCover | deploy/backend/utils/purchaseStore.js:113-117 | every key with a price gets a row, and no product gets two |
| PurchaseStore.AddedItems | deploy/backend/utils/purchaseStore.js:119-126 | inserting the item rows keeps every old row, and each fresh row is an item of the new order |
| PurchaseStore.AddedItemsCover | deploy/backend/utils/purchaseStore.js:113-127 | the fresh rows hold exactly one row per priced distinct product |
| PurchaseStore.Transact | deploy/backend/utils/purchaseStore.js:91-135 | the transaction body: a user id outside `INTEGER` fails at binding and draws no order id; a failing order insert or a total outside `NUMERIC(10, 2)` draws one and rolls back; then the duplicate check, the order insert and the item inserts, with every row rolled back when a statement fails (`TransactAllOrNothing`) |
| PurchaseStore.Reconcile | deploy/backend/utils/purchaseStore.js:56-136 | `recordOrderFromCheckoutSession`: the metadata guard, then the transaction; its outcomes are characterised by `ReconcileAllOrNothing`, `ReconcileRecorded`, `ReconcileIdempotent` and `ReconcileRecordsFresh` |
| PurchaseStore.ReconcileAllOrNothing | deploy/backend/utils/purchaseStore.js:69-71 | invalid metadata is rejected exactly when the guard fails and touches nothing; any failure or duplicate leaves both tables as they were |
| PurchaseStore.TransactAllOrNothing | deploy/backend/utils/purchaseStore.js:91-135 | a rolled-back or duplicate transaction changes no row; a user id outside `INTEGER` changes nothing, not even the order sequence; a total outside the column only advances the sequence |
| PurchaseStore.ReconcilePreservesValid | deploy/backend/utils/purchaseStore.js:95-127 | the tables stay well formed (unique session ids, items of existing orders), and rows are only ever added |
| PurchaseStore.ReconcileRecorded | deploy/backend/utils/purchaseStore.js:59-127 | a recorded session was valid and new; the order row carries the session's values (status, total defaulting to 0); the fresh items are one per priced distinct id, with price and count |
| PurchaseStore.ReconcileIdempotent | deploy/backend/utils/purchaseStore.js:95-109 | replaying a recorded session adds no order and no item, and answers "already recorded" unless the database fails |
| PurchaseStore.ReconcileRecordsFresh | deploy/backend/utils/purchaseStore.js:95-129 | a valid new session whose values fit the columns is recorded under the next order id when nothing fails |
| PurchaseStore.Store.constructor | deploy/backend/utils/purchaseStore.js:24-54 | the tables start empty and both sequences start at 1 |
| PurchaseStore.Store.RecordOrder | deploy/backend/utils/purchaseStore.js:56-136 | the new tables and the outcome are those of `Reconcile` on the old tables |
| PurchaseStore.Store.InsertItems | deploy/backend/utils/purchaseStore.js:113-127 | the loop adds exactly the item rows `ItemRows` describes, or stops at the failing insert; orders are untouched |
| Checkout.FoundRows | deploy/backend/routes/checkoutRoutes.js:45-52 | the query returns at most one row per requested key |
| Checkout.FoundRowsComplete | deploy/backend/routes/checkoutRoutes.js:54-56 | one row per key is returned exactly when every key is a product, and then row `i` is key `i` |
| Checkout.QuantityOf | deploy/backend/routes/checkoutRoutes.js:64 | a line item's quantity is at least 1 |
| Checkout.Prepare | deploy/backend/routes/checkoutRoutes.js:22-65 | the checks before Stripe in the handler's order, and the session request built from the found rows (`PrepareDecisions`, `PreparedLineItems`, `PreparedMetadata`) |
| Checkout.CheckoutReply | deploy/backend/routes/checkoutRoutes.js:21-83 | a rejection from `Prepare`, 500 when Stripe throws, otherwise 200 with the session's url and id (`RejectionsSkipStripe`) |
| Checkout.PrepareDecisions | deploy/backend/routes/checkoutRoutes.js:22-56 | a missing secret gives 500 first; then an empty list gives 400; then a database failure or an out-of-range id gives 500; then an unknown product gives 400; each holds exactly when its condition does |
| Checkout.RejectionsSkipStripe | deploy/backend/routes/checkoutRoutes.js:25-56 | every rejection is decided without Stripe, whatever Stripe would answer |
| Checkout.PreparedLineItems | deploy/backend/routes/checkoutRoutes.js:58-65 | one line item per distinct id, in first-occurrence order (the row order the model fixes), with the product's title, price in cents and occurrence count; the quantities sum to the list length |
| Checkout.PreparedMetadata | deploy/backend/routes/checkoutRoutes.js:72-75 | `product_ids` parses back to the normalised list, and `user_id` converts back to the subject |
| Checkout.CheckoutFeedsReconciler | deploy/backend/routes/checkoutRoutes.js:72-75 | a session created from the request, for a positive subject, passes the reconciler's guard with the same user and the same id list |
| Checkout.CreateSession | deploy/backend/routes/checkoutRoutes.js:21-83 | the handler's reply is that of `CheckoutReply` |
| Checkout.PrepareSession | deploy/backend/routes/checkoutRoutes.js:22-65 | the counting loop and the row mapping compute `Prepare` |
| Checkout.BuildLineItems | deploy/backend/routes/checkoutRoutes.js:58-65 | the mapping yields `LineItemsOf`, with quantities read from the grouped counts |
| Purchases.ListPurchases | deploy/backend/routes/purchaseRoutes.js:10-41 | 500 for a failing query or a subject outside `INTEGER`; otherwise the joined rows in `ORDER BY` order (`ListPurchasesSpec`) |
| Purchases.ListPurchasesSpec | deploy/backend/routes/purchaseRoutes.js:14-36 | the list holds exactly one row per item of a paid order of the caller whose product exists, ordered by date then item id, both descending |
| Purchases.ListedIdsSpec | deploy/backend/routes/purchaseRoutes.js:26-31 | the sorted ids are exactly the listed items, in listing order |
| Purchases.SortLatestSpec | deploy/backend/routes/purchaseRoutes.js:31 | sorting a set of item ids yields each once, strictly in `created_at DESC, id DESC` order |
| Purchases.LaterTotal | deploy/backend/routes/purchaseRoutes.js:31 | the listing order is a strict total order on item ids |
| Purchases.FormatOf | deploy/backend/routes/purchaseRoutes.js:45-46 | the format is mp3 exactly when the lower-cased query is `mp3`, and pdf otherwise |
| Purchases.DownloadReply | deploy/backend/routes/purchaseRoutes.js:43-115 | the download handler's reply, branch by branch in the source's order (`DownloadGate`) |
| Purchases.DownloadGate | deploy/backend/routes/purchaseRoutes.js:43-115 | 400 exactly for a non-positive-integer id; then 500 exactly for a failing query or an id or subject outside `INTEGER`; then the same 404 exactly for an unknown or unpurchased product; then 404 "No PDF/MP3 file available" for a missing or empty stored path, 403 for a path resolving outside the uploads root, 404 for an absent file; otherwise the resolved file under `Filename` of the title; a download implies all of these checks passed |
| Purchases.Sanitize | deploy/backend/routes/purchaseRoutes.js:107 | `replace(/[^a-zA-Z0-9-_]+/g, '_')`; its properties are `SanitizeFromSafe`, `SanitizeRun`, `SanitizeSplit` and `SanitizeIdempotent` |
| Purchases.SanitizeFromSafe | deploy/backend/routes/purchaseRoutes.js:105-107 | the replacement leaves only `[A-Za-z0-9_-]` and never lengthens the text |
| Purchases.SanitizeRun | deploy/backend/routes/purchaseRoutes.js:107 | a non-empty run of other characters becomes a single `_` |
| Purchases.SanitizeSplit | deploy/backend/routes/purchaseRoutes.js:107 | runs are replaced independently: a split before a safe character splits the result |
| Purchases.SanitizeIdempotent | deploy/backend/routes/purchaseRoutes.js:105-107 | sanitising twice is sanitising once |
| Purchases.Stem | deploy/backend/routes/purchaseRoutes.js:105-109 | the title, or `music-<id>` for an empty title, trimmed with unsafe runs replaced; `music-<id>` when that leaves nothing (`StemOf`) |
| Purchases.Filename | deploy/backend/routes/purchaseRoutes.js:105-109 | the stem followed by the format's extension (`FilenameShape`) |
| Purchases.FallbackKept | deploy/backend/routes/purchaseRoutes.js:105-109 | `music-<id>` for a positive id passes `trim` and the replacement unchanged |
| Purchases.StemOf | deploy/backend/routes/purchaseRoutes.js:105-109 | the stem is the sanitised trimmed title, or `music-<id>` when that is empty; it is never empty and holds only safe characters |
| Purchases.FilenameShape | deploy/backend/routes/purchaseRoutes.js:105-109 | the filename is the sanitised trimmed title, or `music-<id>` when that is empty, followed by `.mp3` or `.pdf`; the stem is non-empty and safe |
| Purchases.RecordedSessionEntitles | deploy/backend/routes/purchaseRoutes.js:64-71 | a recorded paid session entitles its user to every listed product that had a price |
| Purchases.AsyncSuccessStaysPending | deploy/backend/utils/purchaseStore.js:66-108 | once a completed session that was not yet paid is recorded as pending, reconciling the same session again as paid leaves the order pending and lists none of its items |
| Purchases.ReconcileKeepsEntitlement | deploy/backend/routes/purchaseRoutes.js:64-71 | nothing the reconciler does removes an entitlement |
| Webhook.HandleWebhook | deploy/backend/routes/stripeWebhookRoutes.js:7-46 | the webhook's checks and dispatch, with the new tables (`RejectedBeforeDispatch`, `Dispatch`, `RedeliveryIdempotent`) |
| Webhook.Handle | deploy/backend/routes/stripeWebhookRoutes.js:7-46 | the new tables and the reply are those of `HandleWebhook` |
| Webhook.RejectedBeforeDispatch | deploy/backend/routes/stripeWebhookRoutes.js:8-31 | 500 exactly when either secret is missing; 400 exactly when the header is missing; 400 "Webhook Error" exactly when verification fails; none of these writes anything |
| Webhook.Dispatch | deploy/backend/routes/stripeWebhookRoutes.js:33-45 | the reconciler runs exactly for the two checkout events; other events are acknowledged untouched; a reconciler failure is 500 |
| Webhook.RedeliveryIdempotent | deploy/backend/routes/stripeWebhookRoutes.js:33-41 | a redelivered, acknowledged event adds no order or item, and is acknowledged again unless the database fails |
| Jwt.Secret | deploy/backend/utils/jwt.js:26-32 | the secret is returned exactly when it is set and non-empty; otherwise the result is the no-secret error |
| Jwt.IndexOf | deploy/backend/utils/jwt.js:49-53 | the position of the first member with the name, or the end |
| Jwt.SetLookup | deploy/backend/utils/jwt.js:49-53 | after `{...p, key: v}` the name reads `v`; every other name reads as before; names stay distinct |
| Jwt.Sign | deploy/backend/utils/jwt.js:44-57 | `signJwt`: the encoded header and claims and their signature, or the no-secret error (`SignNeedsSecret`, `SignedParts`, `ClaimsContent`) |
| Jwt.CreateSignature | deploy/backend/utils/jwt.js:34-42 | the unpadded base64url of the HMAC of `header.payload`, keyed by the secret (`VerifySignature`) |
| Jwt.ClaimsContent | deploy/backend/utils/jwt.js:44-53 | the signed claims hold `iat` = now and `exp` = now + lifetime (7 days by default), overriding the caller's, and every other claim unchanged |
| Jwt.SignNeedsSecret | deploy/backend/utils/jwt.js:55 | signing fails exactly when the secret is unset or empty, with that error |
| Jwt.SignedParts | deploy/backend/utils/jwt.js:44-57 | a signed token is `header.payload.signature`, with three non-empty parts and the signature over the first two |
| Jwt.TokenParts | deploy/backend/utils/jwt.js:56 | three non-empty dot-free parts joined by dots split back into exactly those parts |
| Jwt.ReadEncoded | deploy/backend/utils/jwt.js:16-24 | an encoded object part decodes and parses back to that object |
| Jwt.Verify | deploy/backend/utils/jwt.js:59-86 | `verifyJwt`: the checks in the source's order, each with its error, and the payload when all pass (`VerifyFormat`, `VerifySignature`, `VerifyExpiry`, `VerifyAccepts`, `RoundTrip`) |
| Jwt.VerifyFormat | deploy/backend/utils/jwt.js:59-67 | "missing token" exactly for an absent or empty token; "invalid format" exactly when one of the first three parts is empty |
| Jwt.SignatureMatchesEqual | deploy/backend/utils/jwt.js:70-78 | the length test followed by `timingSafeEqual` accepts exactly the equal signature |
| Jwt.VerifySignature | deploy/backend/utils/jwt.js:69-78 | a well-formed token is rejected as badly signed exactly when its signature is not the HMAC of its first two parts, before any decoding |
| Jwt.VerifyExpiry | deploy/backend/utils/jwt.js:80-85 | a signed token is expired exactly when `exp` is missing, falsy or below now; `exp == now` is accepted |
| Jwt.VerifyAccepts | deploy/backend/utils/jwt.js:59-86 | a correctly signed token with a non-zero, unexpired `exp` is accepted with its payload |
| Jwt.RoundTrip | deploy/backend/utils/jwt.js:44-86 | `verifyJwt(signJwt(p))` with the same secret, before expiry, returns the signed claims |
| Base64Url.UrlEncode | deploy/backend/utils/jwt.js:8-14 | the standard encoding with `=` removed and `+`, `/` replaced by `-`, `_` (`UrlEncodeText`) |
| Base64Url.UrlDecode | deploy/backend/utils/jwt.js:20-24 | `-`, `_` mapped back, padded to a multiple of 4, decoded (`PadLength`, `UrlRoundTrip`) |
| Base64Url.UrlEncodeText | deploy/backend/utils/jwt.js:8-14 | the encoding is the URL-safe characters of the 6-bit groups: no `=`, `+`, `/` or `.` |
| Base64Url.PadLength | deploy/backend/utils/jwt.js:22 | `(4 - n % 4) % 4` is below 4 and pads the length to a multiple of 4 |
| Base64Url.StdDecodeEncode | deploy/backend/utils/jwt.js:9-10 | strict base64 decoding reads the standard encoding back |
| Base64Url.UrlRoundTrip | deploy/backend/utils/jwt.js:8-24 | `base64UrlDecode(base64UrlEncode(b))` gives back the bytes |
| Utf8.DecodeEncode | deploy/backend/utils/jwt.js:9-23 | `Buffer.from(s).toString('utf8')` gives back the text |
| Utf8.EncodeInjective | deploy/backend/utils/jwt.js:9 | different texts have different UTF-8 encodings |
| JsonWrite.ObjectRoundTrip | deploy/backend/utils/jwt.js:16-18 | `JSON.parse(JSON.stringify(obj))` gives back the same members in the same order |
| JsonWrite.IntArrayRoundTrip | deploy/backend/routes/checkoutRoutes.js:74 | `JSON.parse(JSON.stringify(ids))` is the array of the same integers |
| Json.LastMember | deploy/backend/utils/jwt.js:81 | a member is found exactly when some member has that name |
| JsNumber.StringToNumberOfDecimal | deploy/backend/utils/purchaseStore.js:59 | `Number(String(n))` is `n` |
| JsNumber.ParseIntOfDecimal | deploy/backend/routes/getMusicLimitedRoutes.js:10-11 | `parseInt(String(n))` is `n` |
| JsNumber.ParseInt | deploy/backend/routes/getMusicLimitedRoutes.js:10-11 | `parseInt` yields NaN or an integer |
| JsText.TrimIdempotent | deploy/backend/routes/authRoutes.js:51 | trimming a trimmed string changes nothing |
| JsText.TrimLower | deploy/backend/routes/authRoutes.js:51 | lower-casing and trimming commute |
| JsText.SplitJoin | deploy/backend/middleware/requireAuth.js:5 | joining the parts of a split with the separator gives the string back |
| Credentials.NormalizeEmail | deploy/backend/routes/authRoutes.js:50-52 | the address, or `""` when missing, trimmed and lower-cased (`NormalizeEmailIdempotent`) |
| Credentials.NormalizeEmailIdempotent | deploy/backend/routes/authRoutes.js:50-52 | normalising is idempotent, and a missing address normalises to `""` |
| Credentials.HexText | deploy/backend/routes/authRoutes.js:55-56 | two hex digits per byte |
| Credentials.HexRoundTrip | deploy/backend/routes/authRoutes.js:65-66 | `Buffer.from(hex, 'hex')` of a byte string's hex gives the bytes back |
| Credentials.HashPassword | deploy/backend/routes/authRoutes.js:54-58 | the salt's hex, `:`, and the hex of the key derived with that salt text (`HashFormat`, `HashParts`) |
| Credentials.VerifyPassword | deploy/backend/routes/authRoutes.js:60-69 | splits at `:`, rejects a missing part, and compares the decoded keys by length and content (`VerifyPasswordSpec`, `HashThenVerify`) |
| Credentials.HashFormat | deploy/backend/routes/authRoutes.js:54-58 | a stored hash is 161 characters: 32 lower-case hex digits of salt, `:`, and 128 of key |
| Credentials.HashParts | deploy/backend/routes/authRoutes.js:54-61 | splitting a stored hash at `:` gives the salt text and the key text |
| Credentials.VerifyPasswordSpec | deploy/backend/routes/authRoutes.js:60-69 | accepted exactly when both parts are present and the key derived with the stored salt text decodes to the stored key |
| Credentials.HashThenVerify | deploy/backend/routes/authRoutes.js:54-69 | a hash made from a password accepts that password, and exactly the attempts deriving the same key |
| Credentials.Find | deploy/backend/routes/authRoutes.js:130-162 | `WHERE email = $1` or `WHERE id = $1`: a found row matches the key; nothing is found exactly when no row matches it |
| Credentials.Register | deploy/backend/routes/authRoutes.js:83-117 | the registration handler with the new table: 500 for a failing query or an address holding U+0000 (`RegisterDecisions`, `RegisterPreservesValid`) |
| Credentials.RegisterDecisions | deploy/backend/routes/authRoutes.js:86-116 | 400 exactly for a missing address or password, or a password under 8 units; 409 exactly for an address already taken and storable as text; 500 with no row for an address holding U+0000; none of these adds a row; a new row is a customer with the normalised address; success is 201 |
| Credentials.RegisterPreservesValid | deploy/backend/routes/authRoutes.js:100-113 | ids and addresses stay unique, and the sequence never goes back |
| Credentials.InsertValid | deploy/backend/routes/authRoutes.js:100-107 | appending an unused address under the next id keeps the table valid |
| Credentials.UserStore.constructor | deploy/backend/routes/authRoutes.js:12-48 | an empty, valid table whose sequence starts at 1 |
| Credentials.UserStore.RegisterUser | deploy/backend/routes/authRoutes.js:83-117 | the new table and the reply are those of `Register` |
| Credentials.Login | deploy/backend/routes/authRoutes.js:119-148 | the login handler: 400 for a missing field, 500 for a failing query or an address holding U+0000, 401 for an unknown address or a wrong password, else the token response, or 500 when signing fails (`LoginUniform`, `LoginSucceeds`) |
| Credentials.LoginUniform | deploy/backend/routes/authRoutes.js:139-141 | an unknown address and a wrong password get the same 401, exactly when the address can be bound as text; an address holding U+0000 is a 500 instead |
| Credentials.LoginSucceeds | deploy/backend/routes/authRoutes.js:139-143 | a successful login is the stored user's token response, and that user's password verified |
| Credentials.LoginToken | deploy/backend/routes/authRoutes.js:71-81 | the login token verifies, until it expires, to `{sub, email, role}` plus `iat` and `exp` |
| Credentials.TokenVerifies | deploy/backend/routes/authRoutes.js:71-81 | a token response's token verifies to the user's claims plus `iat` and `exp` |
| Credentials.RegisterThenLogin | deploy/backend/routes/authRoutes.js:83-148 | after registering, the same address and password log in |
| Credentials.Me | deploy/backend/routes/authRoutes.js:150-173 | 500 for a failing query or a subject outside `INTEGER`; otherwise 404 or the row's profile (`MeNotFound`) |
| Credentials.MeNotFound | deploy/backend/routes/authRoutes.js:153-171 | a subject outside `INTEGER` gets 500; within it, 404 exactly when no row has the subject's id, and otherwise the profile of a row with that id |
| AuthMiddleware.BearerToken | deploy/backend/middleware/requireAuth.js:4-9 | the second space-separated part when the first is `Bearer` and it is non-empty (`BearerTokenShape`, `BearerTokenOf`) |
| AuthMiddleware.Authenticate | deploy/backend/middleware/requireAuth.js:3-18 | `requireAuth`: 401 without a bearer token, 401 when it does not verify, else next with its payload (`AuthenticateDecisions`) |
| AuthMiddleware.IsAdmin | deploy/backend/middleware/requireAdmin.js:5 | the payload's `role` is the string `admin` |
| AuthMiddleware.Authorize | deploy/backend/middleware/requireAdmin.js:3-11 | `requireAdmin`: the outcome of `requireAuth`, then 403 for a non-admin (`AuthorizeDecisions`) |
| AuthMiddleware.BearerTokenShape | deploy/backend/middleware/requireAuth.js:4-9 | an accepted header starts with `Bearer ` and the token; the token is non-empty and has no space |
| AuthMiddleware.BearerTokenOf | deploy/backend/middleware/requireAuth.js:4-9 | `Bearer <token>` is accepted as that token, even with more text after a further space |
| AuthMiddleware.AuthenticateDecisions | deploy/backend/middleware/requireAuth.js:3-18 | passes on exactly when a bearer token is present and verifies, and then `req.user` is its payload; otherwise 401, telling a missing token from a bad one, and `req.user` unchanged |
| AuthMiddleware.AuthorizeDecisions | deploy/backend/middleware/requireAdmin.js:3-11 | passes on exactly when `requireAuth` does and the role is `admin`; 403 for an authenticated non-admin; every 401 stands |
| AuthMiddleware.Request.RequireAuth | deploy/backend/middleware/requireAuth.js:3-18 | the outcome and the new `req.user` are those of `Authenticate` |
| AuthMiddleware.Request.RequireAdmin | deploy/backend/middleware/requireAdmin.js:3-11 | the outcome and the new `req.user` are those of `Authorize` |
| AuthMiddleware.SignedTokenNoSpace | deploy/backend/utils/jwt.js:44-57 | a signed token is non-empty and has no space |
| AuthMiddleware.VerifiedTokenAdmitted | deploy/backend/middleware/requireAuth.js:4-14 | a verifying token sent as `Bearer <token>` passes with its payload, and passes the admin gate exactly when its role is `admin` |
| AuthMiddleware.LoginTokenAdmitted | deploy/backend/middleware/requireAdmin.js:3-11 | a login token sent back before expiry passes `requireAuth`, and passes `requireAdmin` exactly when the user is an administrator |
| ClientAuth.WithSession | deploy/frontend/utils/auth.js:23-29 | the entries after `setAuthSession`: the token always, the stringified user when given (`SessionReadBack`) |
| ClientAuth.UserOf | deploy/frontend/utils/auth.js:12-21 | `getAuthUser`: the parsed user entry, or null when it is absent, empty or not JSON (`UserReadBack`) |
| ClientAuth.HeadersOf | deploy/frontend/utils/auth.js:49-52 | `getAuthHeaders`: `Authorization: Bearer <token>` when a non-empty token is stored, else none (`HeadersWhenAuthenticated`) |
| ClientAuth.LocalStore.SetAuthSession | deploy/frontend/utils/auth.js:23-29 | the token is always stored; the user is stored only when given |
| ClientAuth.LocalStore.SetAuthUser | deploy/frontend/utils/auth.js:31-34 | the user entry becomes the stringified object |
| ClientAuth.LocalStore.ClearAuthToken | deploy/frontend/utils/auth.js:36-39 | every entry is removed |
| ClientAuth.SessionReadBack | deploy/frontend/utils/auth.js:8-29 | after storing a session, the token reads back; the user reads back as given or stays as before; other keys are untouched |
| ClientAuth.UserReadBack | deploy/frontend/utils/auth.js:12-34 | a stored user reads back as the same object, and the token is untouched |
| ClientAuth.ClearedSignedOut | deploy/frontend/utils/auth.js:36-52 | after clearing, there is no token, no user, no admin and no header |
| ClientAuth.HeadersWhenAuthenticated | deploy/frontend/utils/auth.js:41-52 | a header is sent exactly when authenticated, and it carries `Bearer ` and the stored token |
| ClientAuth.HeadersParsedByServer | deploy/frontend/utils/auth.js:49-52 | `requireAuth` parses the sent header back to the stored token, for a token without spaces |
| ClientAuth.AdminAfterSession | deploy/frontend/utils/auth.js:41-47 | after storing a session, the client is admin exactly when the stored object's role is `admin`, and authenticated exactly when the token is non-empty |
| ClientAuth.StoredReply | deploy/frontend/utils/auth.js:23-52 | storing a reply's token and user signs the client in, as admin exactly for the admin role |
| ClientAuth.LoginSessionAdmitted | deploy/frontend/utils/auth.js:49-52 | after a login is stored, the header passes `requireAuth`, and the client's admin test agrees with `requireAdmin` |
| Catalog.ListProducts | deploy/backend/routes/getMusicLimitedRoutes.js:6-42 | `GET /`: the legacy list without a usable page size, else a page and the total, 500 on failure (`LegacyListing`, `PagedListing`) |
| Catalog.PageOf | deploy/backend/routes/getMusicLimitedRoutes.js:10 | the page is never 0 |
| Catalog.PageSizeOf | deploy/backend/routes/getMusicLimitedRoutes.js:11-13 | a usable page size is never 0 |
| Catalog.PageOfSpec | deploy/backend/routes/getMusicLimitedRoutes.js:10-13 | an absent, empty or zero page is 1, and otherwise `n` reads back as `n`; an absent, empty or zero page size selects the legacy list, and otherwise `n` is used |
| Catalog.PgInteger | deploy/backend/routes/getMusicLimitedRoutes.js:48-52 | an accepted id parameter is a 32-bit integer |
| Catalog.PgIntegerOfDecimal | deploy/backend/routes/getMusicLimitedRoutes.js:48-52 | an id written by `String(n)` is read as `n` exactly when it fits 32 bits |
| Catalog.DescendingSpec | deploy/backend/routes/getMusicLimitedRoutes.js:29-33 | `ORDER BY id DESC` lists each id once, strictly decreasing |
| Catalog.WindowRows | deploy/backend/routes/getMusicLimitedRoutes.js:29-35 | a `LIMIT`/`OFFSET` window of the listing has the expected length and holds the active products at those positions, in order |
| Catalog.LegacyListing | deploy/backend/routes/getMusicLimitedRoutes.js:13-21 | min(3, active) active products, ids descending; no unshown active product has a higher id than a shown one |
| Catalog.PagedListing | deploy/backend/routes/getMusicLimitedRoutes.js:23-37 | a page is served exactly when the size and offset are non-negative; it holds up to `pageSize` active products from position `(page-1)*pageSize` in listing order; total counts all active products; otherwise 500 |
| Catalog.TotalIndependentOfPage | deploy/backend/routes/getMusicLimitedRoutes.js:26-37 | the total is the same whatever the page |
| Catalog.PagesTile | deploy/backend/routes/getMusicLimitedRoutes.js:23-35 | pages 1 to k, read in order, are the first k × size ids |
| Catalog.PagesCoverListing | deploy/backend/routes/getMusicLimitedRoutes.js:23-37 | reading pages until k × size reaches the total shows every active product exactly once, newest first |
| Catalog.GetProduct | deploy/backend/routes/getMusicLimitedRoutes.js:45-63 | `GET /:id`: the active product with that id, 404, or 500 for an id PostgreSQL refuses (`GetProductSpec`) |
| Catalog.GetProductSpec | deploy/backend/routes/getMusicLimitedRoutes.js:45-62 | found exactly for an existing active product; 404 for an inactive or unknown id; 500 for an id PostgreSQL cannot read |
| Catalog.ListedProductFound | deploy/backend/routes/getMusicLimitedRoutes.js:45-58 | looking up a listed product by its id finds it |

## Left out

**Arithmetic and encodings**
- Money is integer cents. `toDollars` and `Math.round(price * 100)` are floating point, and `NUMERIC(10, 2)` is modelled only as a range check on the total.
- JavaScript numbers are exact rationals. Double rounding, precision beyond 2^53 and the formatting of non-integers are not modelled.
- `JSON.stringify` is modelled only for what the system writes: integer arrays and flat objects of integer and string members. Objects whose keys look like array indices, which JavaScript reorders, are not modelled.
- `toLowerCase` is modelled on ASCII letters only. Other Unicode case mappings are left out.
- Strings are sequences of Unicode scalar values, so lone UTF-16 surrogates cannot occur. Password length is counted in UTF-16 units, as JavaScript does.
- Node's lenient base64 decoding skips characters outside the alphabet. The model decodes strictly, so a token containing such characters counts as badly formed. Signatures are compared before decoding, so no accepted token is affected.
- `Buffer.from(hex, 'hex')` stops at the first invalid pair, and the model does the same.
- Integer input in PostgreSQL 16 syntax (hexadecimal, octal, binary and `_` separators) is not modelled for `GET /:id`. `LIMIT` and `OFFSET` are taken as unbounded integers, not `bigint`.
- Catalog.ListProducts takes the query parameters as strings. Array-valued parameters (`?page=1&page=2`) are left out.
- Purchases.FormatOf: the format query is taken as a string. An array-valued `?format=`, which `String()` joins with commas and so turns into pdf, is left out.

**Cryptography and external services**
- HMAC-SHA-256, scrypt, `randomBytes` and Stripe's `constructEvent` and `checkout.sessions.create` are function parameters, and their internals are not modelled. `timingSafeEqual` is modelled by its result only.
- The Stripe `apiVersion` and the Stripe client object are left out.

**Storage and runtime**
- The database is sequential maps. Concurrency, isolation and SQL row order are left out; the listing order is the one the `ORDER BY` clauses state.
- Checkout.PreparedLineItems: the line items are stated in first-occurrence order of the distinct ids, the row order Checkout.FoundRows fixes. The product query has no `ORDER BY`, so PostgreSQL may return the rows, and the route build the line items, in another order.
- Database failures are an input naming the failing statement.
- SERIAL sequences are never rolled back. The `INTEGER` limit of the `id` columns themselves is not enforced.
- PurchaseStore.Reconcile: the foreign key from `orders.user_id` to `users(id)` is not checked. Its refusal is left to the failure input `OrderInsertFails`, so `ReconcileRecorded`'s fault-free case presumes the user row exists.
- The memoised `tableInitPromise` schema setup is left out. It is setup, not logic.
- `path.resolve` and `fs.access` are parameters; only the containment test is modelled.
- `console` logging and the `auth-changed` window event are left out.

**Scope of the model**
- The handlers take the authenticated subject as an integer `sub`, which is what the system's own tokens carry. Request bodies are taken as strings or absent. Non-string body fields, which `String()` would convert, are left out.
- ClientAuth.LocalStore.SetAuthUser: only flat objects are modelled as the stored user. Arrays, strings and `null`, which `JSON.stringify` would also store, are left out.
- ClientAuth.LocalStore.SetAuthSession: the user it stores is likewise a flat object. Other truthy values, which `JSON.stringify` would also store, are left out.
- React pages, the upload and deletion routes, the watermarking script and the server setup are not part of this model.

**Where the code and its documentation differ (the model follows the code)**
- A token whose `exp` equals the current second is accepted. Section 4.1.4 of RFC 7519 would reject it.
- `verifyJwt` ignores any parts after the third.
- Checkout has no "already purchased" rejection, and no rule that an order's total equals the sum of its items.
- No `/complete-session` endpoint exists in the backend.
- A registration refused with 409 still consumes a SERIAL id.
- A completed session whose payment is not yet `paid` is stored as a pending order. The later `checkout.session.async_payment_succeeded` event meets `ON CONFLICT DO NOTHING`, so the order stays pending and no entitlement follows (`Purchases.AsyncSuccessStaysPending`).
- A negative `page` or `pageSize` produces a negative `OFFSET` or `LIMIT`. PostgreSQL refuses it, so the listing answers 500.
- A non-numeric `/:id` makes the query fail, so the answer is 500 rather than 404.

# furia-rock backend: a Dafny model of the shop's rules

This project models the server-side rules of the Furia Rock shop backend, a NestJS service that
keeps a catalogue of products in colour variants, shopping carts per browser session, and orders
paid through the Wompi payment gateway. These parts are modelled:

- **Checkout** (`payments.dfy`). `createCheckout` snapshots the cart at current prices, computes
  the amount in cents, signs it, and stores a PENDING order. `updateOrderStatus` is the one writer
  of payment status.
- **Webhook** (`webhook.dfy`). The guard chain of the gateway callback and its status table.
- **Integrity signature** (`integrity.dfy`). The input reference ‖ amount ‖ currency ‖ secret,
  its UTF-8 encoding, and the lowercase hex of the SHA-256 digest.
- **Carts** (`carts.dfy`). Get-or-create with expiry, add and merge lines, requantify, remove,
  clear, and the recomputed totals.
- **Products** (`products.dfy`). Create, update with the variant merge, clone and remove, the
  auto-activation rule, and the image-list edits of one variant.
- **Orders** (`orders.dfy`). Shipment tracking of approved orders, and the summary and detail views.
- **Categories** (`categories.dfy`). The two-level tree, names unique per level, the single
  default category, and the delete guards.
- **Qualities** (`qualities.dfy`). Unique lowercased names and the seeding of three defaults.
- **Repositories** (`*_repository.dfy`, `pagination.dfy`, `sort_spec.dfy`). Filter predicates,
  whitelisted `field:direction` sort parameters, lookups, and pagination arithmetic.
- **Image URLs** (`image_upload.dfy`). Extracting a Cloudinary public id from an image URL.

Each database table is a sequence of rows, in insertion order. It is a field of the service
class that owns it, and the methods reassign it. Every service method is proved against a
function of the old table that describes the new table and the answer. The properties the code
promises, such as unique keys, idempotence, round trips, error cases and "nothing else changes",
are proved about those functions.

Money is integer cents, because prices are `decimal(10,2)`. Times are integers in milliseconds.
The following are parameters:
- the clock (`now`);
- fresh UUIDs (`newId`, or `uuid: nat -> Id` for several);
- SHA-256 (`sha256`);
- the URL parser (`pathnameOf`);
- the URLs Cloudinary returns for an upload.

A write that would break a unique column fails with the database error `DuplicateEntry` and
changes nothing. The other database columns and collation are modelled as follows:
- The server is MySQL with its default case-insensitive collation. The quality and category name
  lookups and the unique quality name ignore letter case (`Text.SameText`), and ORDER BY on a name
  sorts by the lower-cased name (`QualityRepository.NameKey`, `CategoryRepository.NameKey`). The
  cart session id and the order reference are compared exactly (see "## Left out").
- LIKE gives `%`, `_` and the escape `\` their meaning in a search text, and ignores letter case.
- The cart `sessionId`, order `reference` and quality `name` columns are unique, as their
  entities declare.
- A `decimal` column is read back as text, so `updateProductDto.price !== existingProduct.price`
  holds whenever a price is given. The model therefore asks for the cart price sync whenever a
  price is given.

Where a contract that states what the code evidently means would not hold of the code as
written, the model keeps both versions. The as-written one comes with a concrete input that shows
the difference. The rest of the model uses the corrected one (see "## Findings").

## Model

| member | source | states |
|---|---|---|
| Pagination.ApplyPagination | src/common/utils/pagination.util.ts:25-33 | a window is applied exactly when both page and limit are truthy; it takes `limit` rows after skipping `(page − 1) · limit` |
| Pagination.Select | src/common/utils/pagination.util.ts:29-31 | no window keeps every row; a window is refused exactly when its skip or take is negative; otherwise at most `take` rows, the i-th being row `skip + i` |
| Pagination.ExecutePaginatedQuery | src/common/utils/pagination.util.ts:41-60 | the total counts every matching row before the window is cut; meta.page falls back to 1 and meta.limit to the total; without both options the data is every row; with page ≥ 1 and limit ≥ 1 the query succeeds and the data is that page, PageOf |
| Pagination.PageOf | src/common/utils/pagination.util.ts:29-31 | page `page` of `limit` rows never holds more than `limit` rows |
| Pagination.TotalIndependentOfPage | src/common/utils/pagination.util.ts:45-47 | two requests for different pages of the same rows report the same total |
| Pagination.PagesArePrefix | src/common/utils/pagination.util.ts:29-31 | pages 1..n read one after another are the first n·limit rows, so paging never skips or repeats a row |
| Pagination.PageData | src/common/utils/pagination.util.ts:29-31 | page n holds exactly rows (n − 1)·limit up to n·limit, clipped to the table |
| Pagination.PagesCoverRows | src/common/utils/pagination.util.ts:29-31 | once n·limit reaches the row count, pages 1..n together are the whole table |
| SortSpec.ParseSortSpec | src/colors/repositories/color.repository.ts:38-43 | a `field:direction` parameter is accepted only when the field is whitelisted and the direction upper-cases to ASC or DESC; a parameter without a ':' or with an unknown field is refused |
| SortSpec.ParseSortSpecAccepts | src/colors/repositories/color.repository.ts:39-44 | every whitelisted field with a direction in any letter case, whatever follows a second ':', is accepted as that field and direction |
| ColorRepository.ApplyFilters | src/colors/repositories/color.repository.ts:24-35 | with no search text and no active flag every color is listed; a search keeps exactly the colors whose name or hex code matches the LIKE pattern `%q%`, wildcards included; an active flag keeps exactly the colors with that flag |
| ColorRepository.ApplySorting | src/colors/repositories/color.repository.ts:37-51 | one ORDER BY term on a whitelisted column; an unusable parameter orders by createdAt descending |
| ColorRepository.ApplySortingAccepts | src/colors/repositories/color.repository.ts:39-45 | `field:dir` with a whitelisted field and ASC/DESC in any case orders by that field and direction |
| ColorRepository.FindWithFilters | src/colors/repositories/color.repository.ts:15-22 | the total is the number of matching colors; every color returned is in the table and matches; without both page options the data is every matching color in order, and with page, limit ≥ 1 it is that page of them |
| ColorRepository.FindByIds | src/colors/repositories/color.repository.ts:61-64 | no ids gives no colors; every color returned exists and was asked for; a stored color whose id was asked for is returned; one color per id exactly when the ids are distinct and all exist |
| QualityRepository.ApplyFilters | src/qualities/repositories/quality.repository.ts:24-35 | with no search and no flag every quality is listed; a search keeps exactly those whose name or (non-null) description matches the LIKE pattern `%q%`, wildcards included; an active flag keeps exactly those with that flag |
| QualityRepository.ApplySorting | src/qualities/repositories/quality.repository.ts:37-51 | one ORDER BY term on a whitelisted column; an unusable parameter orders by name ascending |
| QualityRepository.ApplySortingAccepts | src/qualities/repositories/quality.repository.ts:39-45 | `field:dir` with a whitelisted field and ASC/DESC in any case orders by that field and direction |
| QualityRepository.FindWithFilters | src/qualities/repositories/quality.repository.ts:15-22 | the total is the number of matching qualities; every quality returned is stored and matches; without both page options the data is every matching quality in order, and with page, limit ≥ 1 it is that page of them |
| QualityRepository.FindAll | src/qualities/repositories/quality.repository.ts:53-58 | sorted by name under the case-insensitive collation, and a permutation of exactly the active qualities |
| QualityRepository.FindById | src/qualities/repositories/quality.repository.ts:60-64 | a stored, active quality with that id; none exactly when no active quality has it |
| QualityRepository.FindByName | src/qualities/repositories/quality.repository.ts:66-70 | a stored, active quality whose name equals the given one in any letter case; none exactly when no active quality has it |
| CategoryRepository.ApplyFilters | src/categories/repositories/category.repository.ts:92-106 | a category is listed exactly when its name matches the LIKE pattern `%q%` (wildcards included) if a search is given, and its active and default flags equal those asked for |
| CategoryRepository.ListingCondition | src/categories/repositories/category.repository.ts:18-23 | unless children are asked for, only top-level categories are listed; with includeChildren, or for a top-level category, the filters alone decide |
| CategoryRepository.ApplySorting | src/categories/repositories/category.repository.ts:108-123 | a usable parameter gives one whitelisted ORDER BY term; otherwise default DESC, then name ASC |
| CategoryRepository.ApplySortingAccepts | src/categories/repositories/category.repository.ts:110-116 | `field:dir` with a whitelisted field and ASC/DESC in any case orders by that field and direction |
| CategoryRepository.ApplySortingRejects | src/categories/repositories/category.repository.ts:114-122 | a field outside the whitelist falls back to the default order, whatever its direction |
| CategoryRepository.FindWithFilters | src/categories/repositories/category.repository.ts:15-27 | the total counts the categories meeting the listing condition; every category returned is stored and meets it, so without includeChildren it is top-level; without both page options the data is every such category in order, and with page, limit ≥ 1 it is that page of them |
| CategoryRepository.FindChildrenByParentId | src/categories/repositories/category.repository.ts:29-34 | sorted by name under the case-insensitive collation, and a permutation of exactly the active children of the parent |
| CategoryRepository.FindByIds | src/categories/repositories/category.repository.ts:36-39 | no ids gives no categories; every category returned exists and was asked for; a stored category whose id was asked for is returned; one per id exactly when the ids are distinct and all exist |
| CategoryRepository.FindDefaultCategory | src/categories/repositories/category.repository.ts:41-43 | a stored category that is both default and active; none exactly when there is no such category |
| CategoryRepository.SetAsDefault | src/categories/repositories/category.repository.ts:45-50 | every row keeps its place and fields, and afterwards is the default exactly when it has the given id |
| CategoryRepository.SetAsDefaultExactlyOne | src/categories/repositories/category.repository.ts:45-50 | with unique ids, after setAsDefault(id) the default flag is on exactly for that id, and on at most one row |
| CategoryRepository.CountByParentId | src/categories/repositories/category.repository.ts:86-90 | the count is zero exactly when no category has that parent |
| ProductRepository.FindOptions.constructor | src/products/repositories/product.repository.ts:34 | the options object holds the relation list the caller gave |
| ProductRepository.WithRequiredRelations | src/products/repositories/product.repository.ts:36-45 | the list always names 'categories' and 'quality'; none given becomes exactly those two; a given list is kept as a prefix and grows by at most the two missing names, adds nothing else, and gains no duplicate |
| ProductRepository.WithRequiredRelationsIdempotent | src/products/repositories/product.repository.ts:36-45 | augmenting an already augmented list changes nothing |
| ProductRepository.FindById | src/products/repositories/product.repository.ts:46 | the stored product with that id, active or not; none exactly when no product has it |
| ProductRepository.FindOne | src/products/repositories/product.repository.ts:34-47 | the caller's options end with the augmented relation list, and the product with that id is returned, none exactly when it does not exist |
| ProductRepository.FindWithFilters | src/products/repositories/product.repository.ts:15-24 | the total is the number of products that pass the filters; each product returned is a stored one that passes them, loaded as Loaded says; without both page options the data is all of them in order, with page, limit ≥ 1 that page of them; with a category filter each has at least one category, all of them listed |
| ProductRepository.Loaded | src/products/repositories/product.repository.ts:17 | without a category filter the product is loaded whole; with one, only the fields of its categories change, to exactly its categories that are listed |
| ProductRepository.LoadedKeepsAListedCategory | src/products/repositories/product.repository.ts:68-72 | a product the category filter keeps is loaded with at least one category, every one of them listed |
| ProductRepository.LoadAll | src/products/repositories/product.repository.ts:17 | each listed product, in order, as Loaded gives it |
| ProductRepository.FindWithFiltersAsWritten | src/products/repositories/product.repository.ts:62-90 | a name search or a colour filter makes the server refuse the query (ER_PARSE_ERROR); any other request lists what FindWithFilters lists |
| ProductRepository.SearchAndColourFailAsWritten | src/products/repositories/product.repository.ts:62-90 | the active product 'Tee' with a red variant is listed for the search 'tee' and for the colour red by FindWithFilters, and both requests fail as written |
| ProductRepository.Visible | src/products/repositories/product.repository.ts:104-125 | an explicit active filter applies in both modes; without one, admin mode shows every product and public mode only active ones |
| ProductRepository.ApplyFilters | src/products/repositories/product.repository.ts:61-126 | a product is listed exactly when it matches the search text, one of the listed categories, the listed qualities, a listed colour on some variant, both price bounds, and the visibility rule |
| ProductRepository.PublicListingIsActiveProducts | src/products/repositories/product.repository.ts:113-125 | with no filters the public catalogue lists a product exactly when it is active |
| ProductRepository.AdminListingIsEverything | src/products/repositories/product.repository.ts:105-112 | in admin mode with no filters every product is listed |
| ProductRepository.PriceBoundsInclusive | src/products/repositories/product.repository.ts:92-102 | a product priced exactly at minPrice or maxPrice is kept |
| ProductRepository.ColorFilterAnyVariant | src/products/repositories/product.repository.ts:80-90 | the other filters passing, the colour filter keeps a product exactly when one of its variants has a listed colour (the dialect's own JSON search; the query as written fails, see FindWithFiltersAsWritten) |
| ProductRepository.ApplySorting | src/products/repositories/product.repository.ts:128-141 | priceDesc, priceAsc, dateDesc and dateAsc give their own order; any other value, or none, gives createdAt DESC |
| ImageUpload.DropVersion | src/image-upload/image-upload.service.ts:48-51 | a first segment of 'v' followed by one or more digits is dropped; anything else, 'v' alone or 'vx1' included, leaves the segments as they are |
| ImageUpload.StripExtension | src/image-upload/image-upload.service.ts:54-59 | the result is a prefix of the text, cut at the last '.' only when that '.' is not the first character |
| ImageUpload.StripExtensionRoundTrip | src/image-upload/image-upload.service.ts:54-59 | a non-empty id with '.ext' appended, the extension having no '.', strips back to the id |
| ImageUpload.StripExtensionKeepsDotFiles | src/image-upload/image-upload.service.ts:57-59 | a name without '.', or whose only '.' is its first character, is returned whole |
| ImageUpload.PublicIdFromPath | src/image-upload/image-upload.service.ts:39-59 | no id exactly when no path segment is 'upload' |
| ImageUpload.ExtractPublicIdFromUrl | src/image-upload/image-upload.service.ts:36-68 | an unparseable URL gives null rather than an error; a parsed one gives null exactly when its path has no 'upload' segment |
| ImageUpload.SplitDeliveryPath | src/image-upload/image-upload.service.ts:39 | a delivery path splits into '', the cloud name, 'image', 'upload', the version segment when there is one, then the segments of the public id |
| ImageUpload.SplitVersionedTail | src/image-upload/image-upload.service.ts:39 | the part after 'upload/' splits into the version segment, if any, then the segments of the id |
| ImageUpload.UploadAtFour | src/image-upload/image-upload.service.ts:42-46 | when the cloud name is not 'upload', the first 'upload' is the fourth segment and what follows it is the rest of the path |
| ImageUpload.DropVersionAfterUpload | src/image-upload/image-upload.service.ts:48-51 | a numeric version segment is dropped, and without one the id's first segment is kept unless it looks like a version |
| ImageUpload.PublicIdRoundTrip | src/image-upload/image-upload.service.ts:36-59 | for every cloud name, optional numeric version, id and extension, the id is recovered from the delivery path |
| ImageUpload.DocumentedExample | src/image-upload/image-upload.service.ts:31-35 | '/demo/image/upload/v1234567890/folder/image.jpg' gives 'folder/image' |
| ImageUpload.DocumentedPath | src/image-upload/image-upload.service.ts:33 | the documented path is the delivery path of 'folder/image.jpg' in cloud 'demo' at version 1234567890 |
| ImageUpload.IdsOf | src/image-upload/image-upload.service.ts:74-76 | one URL contributes its extracted id when there is one, and nothing when the extractor gives null |
| ImageUpload.RemoveMultiple | src/image-upload/image-upload.service.ts:73-80 | at most one id per URL |
| ImageUpload.RemoveMultipleAppend | src/image-upload/image-upload.service.ts:73-80 | removing two URL lists at once destroys what removing each in turn would, in that order |
| ImageUpload.RemoveMultipleIds | src/image-upload/image-upload.service.ts:73-80 | every id destroyed is extracted from one of the URLs, and every URL that yields an id has it destroyed |
| Integrity.HexDigit | src/payments/payment.service.ts:248 | every digit value 0..15 renders as a lowercase hex character |
| Integrity.HexValue | src/payments/payment.service.ts:248 | a character reads back as a digit value below 16 |
| Integrity.HexValueOfDigit | src/payments/payment.service.ts:248 | reading a rendered digit gives its value back |
| Integrity.ToHex | src/payments/payment.service.ts:248 | `toString(16)` gives at least one lowercase hex digit, and exactly one for values below 16 |
| Integrity.PadStart | src/payments/payment.service.ts:248 | `padStart` gives the longer of the text and the width, ends with the text, and is filled in front |
| Integrity.HexByte | src/payments/payment.service.ts:248 | each byte renders as its high and its low hex digit, so always two characters |
| Integrity.HexEncode | src/payments/payment.service.ts:247-249 | two characters per byte |
| Integrity.HexEncodeIsLowerHex | src/payments/payment.service.ts:247-249 | every character of the rendering is a lowercase hex digit |
| Integrity.HexDecode | src/payments/payment.service.ts:247-249 | reading hex text back gives one byte per two characters |
| Integrity.HexRoundTrip | src/payments/payment.service.ts:247-249 | reading the hex rendering back gives the bytes, so the rendering loses nothing |
| Integrity.DecodeByteCons | src/payments/payment.service.ts:247-249 | a byte's two digits in front of hex text read back as that byte in front of the text's bytes |
| Integrity.DecodeCons | src/payments/payment.service.ts:247-249 | two digits in front of hex text are read as one byte before the rest |
| Integrity.Utf8Char | src/payments/payment.service.ts:243-244 | one to four bytes per character, one exactly for ASCII, and for ASCII that byte is the character's code |
| Integrity.Utf8Encode | src/payments/payment.service.ts:243-244 | between one and four bytes per character |
| Integrity.Utf8Ascii | src/payments/payment.service.ts:243-244 | ASCII text encodes to one byte per character, the character's code |
| Integrity.Utf8Append | src/payments/payment.service.ts:243-244 | the encoding of two texts run together is that of each, one after the other |
| Integrity.SignatureInputDeterminesAmount | src/payments/payment.service.ts:240 | with the reference, currency and secret fixed, the hashed text determines the amount |
| Integrity.IntegritySignature | src/payments/payment.service.ts:235-252 | 64 lowercase hex characters that read back as the SHA-256 digest of the UTF-8 bytes of reference ‖ amount ‖ currency ‖ secret |
| Integrity.VerifySignature | src/payments/payment.service.ts:255-268 | an absent signature never verifies; a verified one is 64 lowercase hex characters that read back as the payload's digest; and conversely every 64 lowercase hex characters reading back as that digest verify |
| Integrity.DigitOfHexValue | src/payments/payment.service.ts:263-265 | a lowercase hex character is the rendering of its own value |
| Integrity.PairDigits | src/payments/payment.service.ts:263-265 | the byte with high digit hi and low digit lo renders as those two digits |
| Integrity.EncodeLeadingPair | src/payments/payment.service.ts:263-265 | reading and re-rendering hex text keeps its first two characters in front of the rest's re-rendering |
| Integrity.HexEncodeOfDecode | src/payments/payment.service.ts:263-267 | lowercase hex text of even length, read and rendered again, is itself, so the rendering is the only text that equals the digest |
| Payments.LoadConfig | src/payments/payment.service.ts:25-48 | the service starts exactly when the public key, the integrity secret and the base URL are all non-empty, keeping the values read; otherwise it fails with the configuration-missing error |
| Payments.LoadConfigUsable | src/payments/payment.service.ts:39-47 | a configuration is usable exactly when loading its own values succeeds and gives it back |
| Payments.DtoVariables | src/payments/payment.service.ts:86 | the variants search sees no list exactly when the product's variants are null or empty, and otherwise the stored list |
| Payments.SnapLineSpec | src/payments/payment.service.ts:70-110 | a missing product, an inactive product, a product without variants and a variant not found each give their own error; a line that passes copies the line's quantity, discount, size and ids, takes the product's current price and name, and totals quantity × (price − discount) |
| Payments.SnapLine | src/payments/payment.service.ts:70-110 | a failing line gives a BadRequest or the TypeError; a passing one copies the product id, quantity and discount and totals them at its price |
| Payments.Collect | src/payments/payment.service.ts:70-114 | a snapshot that succeeds has one entry per cart line |
| Payments.Snapshot | src/payments/payment.service.ts:70-114 | a snapshot that succeeds has one entry per cart line |
| Payments.CollectSpec | src/payments/payment.service.ts:70-114 | the loop succeeds exactly when every line passes |
| Payments.SnapshotSpec | src/payments/payment.service.ts:70-114 | the snapshot succeeds exactly when every line passes |
| Payments.CollectEntries | src/payments/payment.service.ts:100-110 | each position of a successful traversal holds what that line was turned into |
| Payments.SnapshotEntries | src/payments/payment.service.ts:100-110 | each position of a successful snapshot holds the snapshot of that line |
| Payments.CollectFailurePersists | src/payments/payment.service.ts:70-94 | once the first k lines fail, the whole loop fails with the same error |
| Payments.ConsistentTotals | src/payments/payment.service.ts:112-116 | over lines whose totals are quantity × (price − discount), subtotal minus discount total is the sum of the line totals |
| Payments.SnapshotAmountIsSumOfLineTotals | src/payments/payment.service.ts:98-116 | the snapshot's total equals the sum of its line totals |
| Payments.SnapshotLines | src/payments/payment.service.ts:70-114 | the loop's result is the snapshot of the lines, and its sums are Σ price·qty and Σ discount·qty over it |
| Payments.CollectStep | src/payments/payment.service.ts:70-114 | one more line either keeps the earlier failure, fails with that line's error, or appends that line's snapshot |
| Payments.SnapLinePrices | src/payments/payment.service.ts:96-107 | a line that passes is priced at the product's current price, with its own quantity and discount |
| Payments.SnapSumsStep | src/payments/payment.service.ts:112-113 | one more line adds its price × quantity to the subtotal and its discount × quantity to the discount total |
| Payments.Place | src/payments/payment.service.ts:70-161 | the loop, amount check and order creation give what PlaceOrder defines |
| Payments.SnapshotIgnoresStoredPrices | src/payments/payment.service.ts:96-98 | two carts that differ only in the prices and totals their lines saved give the same snapshot: checkout charges current prices |
| Payments.SnapshotMatchesCartWhenPricesHold | src/payments/payment.service.ts:112-113 | when no price has changed, the snapshot's subtotal and discount total are the cart's own |
| Payments.AddedLineFailsCheckoutAsWritten | src/payments/payment.service.ts:86-94 | a line stored by addItem as written, without a variant, fails the variant search with 'Variant null not found in product …' |
| Payments.AddedLinePassesCheckout | src/payments/payment.service.ts:86-94 | a line that names one of the product's variants passes the search |
| Payments.Classify | src/payments/payment.service.ts:188-201 | BadRequest and InternalServerError are rethrown as they are; anything else becomes the generic InternalServerError |
| Payments.Customer | src/payments/payment.service.ts:136-139 | the buyer's fields are copied and the phone prefix is forced to '57' |
| Payments.Shipping | src/payments/payment.service.ts:141-144 | the address fields are copied and the country is forced to 'CO' |
| Payments.LoadedLines | src/payments/payment.service.ts:56-58 | no live cart, or an expired one that getCart replaces, gives no lines; every line seen is a stored line |
| Payments.PlaceOrder | src/payments/payment.service.ts:70-161 | an order placed carries the given id and reference and a positive amount |
| Payments.PlaceOrderSpec | src/payments/payment.service.ts:70-161 | an order is made exactly when every line passes and the total is positive; a failing line's error or 'Invalid cart total amount' otherwise; the order is PENDING in COP for the sum of the line totals, holds the snapshot and its sums, the buyer with prefix 57, the address in CO, no transaction id, and expires 15 minutes from now |
| Payments.NewOrder | src/payments/payment.service.ts:145-160 | the order has the given id, reference, amount and creation time, is PENDING in COP with no session or transaction, expires 15 minutes later, holds the buyer with prefix 57, their e-mail and the snapshot, whose total is subtotal minus discount total |
| Payments.Response | src/payments/payment.service.ts:168-186 | the answer repeats the order's id, reference, amount, e-mail and address, the given signature, COP, and the configuration's public key and redirect URL |
| Payments.Checkout | src/payments/payment.service.ts:50-202 | the carts are those getOrCreateCart leaves; a failure stores no order; a success appends exactly one order with the given id and reference, and answers them |
| Payments.EmptyCartRejected | src/payments/payment.service.ts:56-60 | a session with no lines fails with 'Cart is empty' and stores no order |
| Payments.CheckoutFailures | src/payments/payment.service.ts:188-201 | every failure is a BadRequest or an InternalServerError and stores no order; the carts are as getCart left them |
| Payments.FailingLineRejectsCheckout | src/payments/payment.service.ts:70-94 | one failing line anywhere in the cart fails the checkout and stores no order |
| Payments.CheckoutSuccess | src/payments/payment.service.ts:151-187 | a successful checkout stores exactly the placed order, and the response repeats its id, reference, amount, currency, e-mail, address, prefix 57, the public key, the redirect URL and the order's integrity signature |
| Payments.SignatureSpec | src/payments/payment.service.ts:125-133 | the signature is 64 lowercase hex characters reading back as the digest of reference ‖ amount ‖ 'COP' ‖ secret |
| Payments.InsertOrderKeepsValid | src/payments/payment.service.ts:163 | storing an order with a new id and a new reference keeps both unique |
| Payments.OrdersApart | src/orders/entities/order.entity.ts:19-23 | two orders with different ids and references are different orders |
| Payments.FindByReference | src/orders/repositories/order.repository.ts:11-13 | the stored order with that reference; none exactly when no order has it |
| Payments.StatusUpdateSpec | src/payments/payment.service.ts:204-222 | an unknown reference fails with NotFound and changes nothing; otherwise that order alone gets the status, takes the transaction id only when a non-empty one is given, keeps every other field, and is returned |
| Payments.StatusUpdate | src/payments/payment.service.ts:204-222 | the table keeps its length, ids and references; failure exactly when no order has the reference, and then nothing changes; a success answers an order with the reference and the new status |
| Payments.StatusUpdateIdempotent | src/payments/payment.service.ts:215-221 | writing the same status and transaction id twice leaves the orders as writing it once |
| Payments.WithStatusTwice | src/payments/payment.service.ts:215-219 | setting the same status and transaction id again changes nothing |
| Payments.StatusUpdateKeepsValid | src/payments/payment.service.ts:204-222 | the status write keeps ids and references unique |
| Payments.WithStatusKeepsKeys | src/payments/payment.service.ts:215-219 | a status write keeps the order's id and reference |
| Payments.PaymentService.constructor | src/payments/payment.service.ts:25-48 | the service holds the accepted configuration and the orders table |
| Payments.PaymentService.CreateCheckout | src/payments/payment.service.ts:50-202 | the new carts, orders and answer are those Checkout defines, the cart lines are untouched, and the orders stay unique |
| Payments.PaymentService.UpdateOrderStatus | src/payments/payment.service.ts:204-222 | the new orders and the answer are those StatusUpdate defines, and the orders stay unique |
| Payments.PaymentService.GetOrderByReference | src/payments/payment.service.ts:224-232 | succeeds exactly when an order has the reference, returning that order; otherwise NotFound with its message |
| Webhook.MapStatus | src/payments/payment.controller.ts:95-110 | the mapped status is APPROVED, DECLINED, VOIDED or ERROR exactly when the upper-cased gateway status is that word; everything else, an absent status included, is PENDING |
| Webhook.MapStatusIgnoresCase | src/payments/payment.controller.ts:95 | a status and its upper-cased form map alike |
| Webhook.MapStatusOfName | src/payments/payment.controller.ts:95-110 | every order status's own name, upper or lower case, maps back to that status |
| Webhook.Decide | src/payments/payment.controller.ts:46-117 | an invalid signature is ignored; a write happens exactly when the signature is valid, the event is 'transaction.updated', a transaction is present and its reference is non-empty, and it carries that reference, the mapped status and the transaction id |
| Webhook.SignatureDecides | src/payments/payment.service.ts:255-268 | with the signature passed, the decision is the one for a valid signature exactly when the signature is the payload digest's rendering, and Ignore otherwise |
| Webhook.SignedApprovalApplied | src/payments/payment.controller.ts:48-117 | a genuinely signed APPROVED notification for 'ref-1' with transaction 'tx-1' decides to write APPROVED and 'tx-1' to 'ref-1' |
| Webhook.Apply | src/payments/payment.controller.ts:113-117 | the write keeps the table's length, ids and references, changes nothing when ignored, and leaves orders with other references as they were |
| Webhook.AcceptedWebhookSetsStatus | src/payments/payment.controller.ts:113-117 | a notification acted on gives the order with its reference the mapped status, and the transaction id when one is given, and leaves every other order as it was |
| Webhook.WebhookRedeliveryIdempotent | src/payments/payment.controller.ts:113-117 | delivering the same notification twice leaves the orders as delivering it once |
| Webhook.WebhookKeepsValid | src/payments/payment.controller.ts:113-117 | the handler keeps order ids and references unique |
| Webhook.DecideAsWritten | src/payments/payment.controller.ts:48-56 | as written, the one-argument signature check compares the digest with an absent signature, so every notification is ignored |
| Webhook.WebhookAsWrittenDropsApproval | src/payments/payment.controller.ts:48-56 | a genuine APPROVED notification for 'ref-1' would set the order to APPROVED, yet as written the orders stay as they were |
| Webhook.PaymentController.constructor | src/payments/payment.controller.ts:26-28 | the controller holds the payment service |
| Webhook.PaymentController.HandleWebhook | src/payments/payment.controller.ts:40-130 | the orders afterwards are those the decision and the status write give, an error being swallowed, and they stay unique; the handler always returns |
| Carts.TotalIsSumOfLineTotals | src/cart/cart.service.ts:187-197 | when every line's total is quantity × (price − discount), the cart total Σ price·qty − Σ discount·qty is the sum of the line totals |
| Carts.NoLinesNoTotals | src/cart/cart.service.ts:187-197 | a cart without lines has zero subtotal, discount total and line total |
| Carts.ExpirationDate | src/cart/cart.service.ts:215-219 | the expiry is later than now by exactly 15 days |
| Carts.ItemTotal | src/cart/cart.service.ts:206-213 | non-negative for a non-negative quantity and a discount not above the price; zero for no quantity or a full discount; quantity × price without discount |
| Carts.ActiveCart | src/cart/repositories/cart.repository.ts:14-22 | a stored active cart of the session; none exactly when the session has no active cart |
| Carts.GetOrCreate | src/cart/cart.service.ts:25-53 | the only failure is the database's duplicate-key error; the cart handed back is stored, belongs to the session, is active and has not expired |
| Carts.InsertAsWritten | src/cart/entities/cart.entity.ts:20-25 | the insert succeeds exactly when no cart has the id or the session id, appending the cart; otherwise DuplicateEntry and nothing written |
| Carts.GetOrCreateAsWritten | src/cart/cart.service.ts:25-53 | a cart handed back is the session's and active, and live or the new one; the only failure is DuplicateEntry |
| Carts.GetOrCreateKeepsLiveCart | src/cart/cart.service.ts:27-37 | a live cart is handed back and nothing is written |
| Carts.GetOrCreateReplacesExpired | src/cart/cart.service.ts:30-50 | an expired cart is saved as ABANDONED, every other row is kept, and a new ACTIVE cart with zero totals expiring in 15 days is added and returned |
| Carts.GetOrCreateSucceedsWithFreshId | src/cart/cart.service.ts:25-53 | with a free id for a new cart, getOrCreateCart always succeeds |
| Carts.GetOrCreateKeepsValid | src/cart/cart.service.ts:25-53 | cart ids stay unique and each session keeps at most one active cart; the cart returned is the one the session's next lookup finds |
| Carts.GetOrCreateIdempotent | src/cart/cart.service.ts:25-53 | asking again at the same instant returns the same cart and writes nothing |
| Carts.AbandonKeepsValid | src/cart/cart.service.ts:33-34 | marking a cart abandoned keeps the carts table valid |
| Carts.AbandonLeavesNoActive | src/cart/cart.service.ts:33-35 | once its active cart is abandoned the session has no active cart |
| Carts.InsertKeepsValid | src/cart/cart.service.ts:40-50 | inserting an active cart for a session without one keeps the table valid, and the session's lookup then finds it |
| Carts.LinesOf | src/cart/entities/cart.entity.ts:54-58 | a cart's lines are exactly the stored lines with its id |
| Carts.RecomputeTotalsSpec | src/cart/cart.service.ts:180-203 | for a stored cart: subtotal Σ price·qty, discount total Σ discount·qty, total their difference, which is the sum of the line totals when those are consistent, expiry now + 15 days; no other cart changes |
| Carts.RecomputeTotals | src/cart/cart.service.ts:180-203 | the table keeps its length; NotFound 'Cart not found' exactly for an unknown id, with nothing written; a success answers a stored cart with that id |
| Carts.RecomputeKeepsValid | src/cart/cart.service.ts:195-202 | recomputing totals keeps the carts table valid |
| Carts.RecomputeAfterGetOrCreate | src/cart/cart.service.ts:66-111 | the cart getOrCreateCart returned is found again by updateCartTotals, still the session's and active |
| Carts.FindLine | src/cart/repositories/cart-item.repository.ts:14-21 | a stored line of that cart and product; none exactly when the cart has no line for the product |
| Carts.NewLineAsWritten | src/cart/cart.service.ts:95-106 | the line addItem writes has no variant and no size, and a consistent total |
| Carts.NewLine | src/cart/cart.service.ts:95-106 | the line has the given ids, variant, size, quantity and price, no discount, and a consistent total |
| Carts.Merge | src/cart/cart.service.ts:84-92 | the same line with the quantities summed and its stored price and discount kept, totalled at the current price, so consistent when the price has not changed |
| Carts.SaveLineSpec | src/cart/cart.service.ts:84-92 | saving a line in place keeps the lines table valid, and the cart's line for that product is the saved one |
| Carts.AddLineSpec | src/cart/cart.service.ts:78-108 | adding fails only for a new line whose id is taken; otherwise the table stays valid and the cart's line for the product is the old line merged, or the new line appended after every other |
| Carts.AddLine | src/cart/cart.service.ts:78-108 | DuplicateEntry exactly for a new line whose id is taken; merging keeps the table's length; a new line is appended after every other |
| Carts.AddedLineQuantity | src/cart/cart.service.ts:84-106 | the line ends with the added quantity on top of what it held (nothing for a new line), and its total is at the current price with the line's own discount (0 for a new line) |
| Carts.AppendLineSpec | src/cart/cart.service.ts:95-107 | a new line with a fresh id for a product the cart lacks keeps the table valid and is the cart's line for it |
| Carts.MergeTwice | src/cart/cart.service.ts:84-92 | adding a then b at one price is adding a + b once |
| Carts.RequantifySpec | src/cart/cart.service.ts:137-145 | the line ends with exactly the given quantity, not added, the current price, and a consistent total |
| Carts.Requantify | src/cart/cart.service.ts:137-145 | the same line with exactly the given quantity, the current price, its discount, and a consistent total |
| Carts.ClearedCartIsEmpty | src/cart/cart.service.ts:161-169 | a cleared cart has no lines, so its subtotal and discount total are zero |
| Carts.WithoutItemSpec | src/cart/cart.service.ts:155 | the removed id is gone from every cart, and every other line stays |
| Carts.WithoutItem | src/cart/cart.service.ts:155 | a line remains exactly when it was stored and has another id |
| Carts.WithoutLinesOf | src/cart/cart.service.ts:165 | a line remains exactly when it was stored and belongs to another cart |
| Carts.ExpiredSessionStuckAsWritten | src/cart/entities/cart.entity.ts:23-25 | with sessionId unique, an expired cart for session 's1' is abandoned but cannot be replaced, and every later call fails; without the unique column the replacement succeeds |
| Carts.CartService.constructor | src/cart/cart.service.ts:18-22 | the service holds the given carts and lines |
| Carts.CartService.GetOrCreateCart | src/cart/cart.service.ts:25-53 | the carts table and the answer are those GetOrCreate defines; the lines are untouched and the tables stay valid |
| Carts.CartService.UpdateCartTotals | src/cart/cart.service.ts:180-203 | the loop's sums give the carts table and the answer RecomputeTotals defines; the lines are untouched |
| Carts.CartService.AddItem | src/cart/cart.service.ts:62-112 | the session's cart first; NotFound for an unknown product and BadRequest for an inactive one with no line written; otherwise the lines AddLine gives, then the recomputed totals |
| Carts.CartService.UpdateItem | src/cart/cart.service.ts:115-149 | 'Item not found in cart' when the cart has no line under that id; BadRequest when its product is gone or inactive; otherwise the line requantified at the current price, then the recomputed totals |
| Carts.CartService.RemoveItem | src/cart/cart.service.ts:152-159 | the line with that id is deleted, then the recomputed totals |
| Carts.CartService.ClearCart | src/cart/cart.service.ts:162-169 | every line of the session's cart is deleted, then the recomputed (zero) totals |
| Carts.CartService.DeleteCart | src/cart/cart.service.ts:172-177 | the session's active cart, when there is one, is deleted; nothing is created and no line changes |
| Categories.SameShapeKeeps | src/categories/categories.service.ts:225-240 | changing only flags keeps ids unique, the tree two-level and names unique per level |
| Categories.ClearDefaults | src/categories/categories.service.ts:225-240 | every row keeps id, name, parent, active flag and creation time; a row stays the default only when it was and is the excluded id |
| Categories.AppendKeeps | src/categories/categories.service.ts:83-84 | appending a category with a fresh id and, when it has a parent, a top-level parent keeps ids unique and the tree two-level; names per level and the single default stay when it repeats no name on its level and is the only default |
| Categories.LeafDto | src/categories/categories.service.ts:242-260 | a category without children maps to its id, name, parent, default flag, active flag and creation time, with an empty list of children |
| Categories.MapToDto | src/categories/categories.service.ts:242-263 | the view keeps the category's id, name, parent, default flag, active flag and creation time, and lists each given child, in order, as a leaf |
| Categories.ApplyUpdate | src/categories/categories.service.ts:147 | the update keeps id and creation time; the name, parent, default flag and active flag each take the given value, or keep the current one when not given |
| Categories.ParentGuard | src/categories/categories.service.ts:96-122 | only BadRequest; its own id as parent is rejected; a parent that passes is another, top-level category, and the category has no children; an absent or null parent is never rejected |
| Categories.ParentGuardPasses | src/categories/categories.service.ts:96-122 | with unique ids the parent checks pass exactly when no parent is given, it is set to null, or it is another, top-level category and the category has no children |
| Categories.TopLevelWitness | src/categories/categories.service.ts:111 | a stored category without a parent makes its id a top-level id |
| Categories.NameGuardAsWritten | src/categories/categories.service.ts:124-140 | refused, with the message naming the new name, exactly when a truthy name differs from the current one and some category, the category itself included, has that name in any letter case on the target level, where a top-level target matches every level |
| Categories.NameGuardAsWrittenMissesMove | src/categories/categories.service.ts:124-140 | moving child 'Tees' to the top level, where 'Tees' exists, passes both checks and the level then holds the name twice |
| Categories.NameGuardAsWrittenRefusesRecase | src/categories/categories.service.ts:124-140 | renaming 'Tees' to 'TEES' finds 'Tees' itself and is refused as written; the corrected check lets it pass |
| Categories.NameGuardAsWrittenRefusesNameOfChild | src/categories/categories.service.ts:124-140 | renaming top-level 'Shirts' to 'Tees', a name only a subcategory has, is refused as written; the corrected check lets it pass |
| Categories.NameGuard | src/categories/categories.service.ts:124-140 | passes exactly when neither name nor level changes, or no other category has the resulting name, in any letter case, on the resulting level; a rejection names the resulting name |
| Categories.NameGuardKeepsNamesUnique | src/categories/categories.service.ts:124-147 | with the corrected check the update keeps names unique per level, letter case aside |
| Categories.EnsureDefaultAsWrittenMakesTwoDefaults | src/categories/categories.service.ts:207-223 | with an inactive default 'Old', a second default 'General' is inserted and the table holds two defaults |
| Categories.EnsureDefaultAsWritten | src/categories/categories.service.ts:207-223 | afterwards a default is found, and the table is the old rows with at most one row appended |
| Categories.EnsureDefault | src/categories/categories.service.ts:207-223 | an existing active default leaves the table alone; otherwise, with a fresh id, every default flag is cleared and an active, top-level default 'General' is appended; success always leaves an active default and keeps the default single; the only failure is a taken id |
| Categories.EnsureDefaultIdempotent | src/categories/categories.service.ts:207-223 | running it again, with any id and time, changes nothing |
| Categories.CreateGuardRejects | src/categories/categories.service.ts:50-76 | create rejects only with BadRequest, and an unknown parent with the message naming its id |
| Categories.CreateGuardPasses | src/categories/categories.service.ts:50-76 | the guards pass exactly when a given parent is top-level and no category on the new one's level has its name in any letter case |
| Categories.CreateGuard | src/categories/categories.service.ts:50-76 | a rejection is a BadRequest; a top-level create passes exactly when no top-level category has the name in any letter case, and is otherwise refused naming it |
| Categories.CreateGuardAsWritten | src/categories/categories.service.ts:50-76 | with a parent, as the corrected guard; at the top level refused exactly when any category, on any level, has the name in any letter case |
| Categories.CreateGuardAsWrittenRefusesNameOfChild | src/categories/categories.service.ts:66-76 | creating top-level 'Tees' when only a subcategory is named 'Tees' is refused as written; the corrected guard lets it pass |
| Categories.ParentIsTheTopLevelOne | src/categories/categories.service.ts:61 | with unique ids, the stored category with an id is top-level exactly when the id is a top-level one |
| Categories.CreationWrites | src/categories/categories.service.ts:49-87 | a rejected create writes nothing; one that passes clears the other defaults when it is the default, then appends the category and answers it with no children; a taken id fails the insert after the clear |
| Categories.Creation | src/categories/categories.service.ts:49-87 | a refused guard writes nothing; a success appends exactly the new category and answers its id with no children; a failure is a BadRequest or DuplicateEntry |
| Categories.CreationKeepsValid | src/categories/categories.service.ts:49-87 | create keeps ids unique, the tree two-level and the default single, and names unique per level when they were |
| Categories.RemovalSpec | src/categories/categories.service.ts:159-200 | NotFound for an unknown id; rejected while products use it, while it has subcategories, or when it is the default and at most one category is active; a known category with none of these is deleted and the answer is true; a rejection writes nothing; a success deletes exactly that category |
| Categories.Removal | src/categories/categories.service.ts:159-200 | a failure writes nothing and is a BadRequest or NotFound 'Category not found'; a success answers true and removes exactly the rows with that id |
| Categories.RemovalKeepsValid | src/categories/categories.service.ts:159-200 | remove keeps ids unique, the tree two-level and the default single |
| Categories.CategoriesService.constructor | src/categories/categories.service.ts:11-13 | the service holds the given categories |
| Categories.CategoriesService.Create | src/categories/categories.service.ts:49-87 | the table and the answer are those Creation defines, so a name that a category on the same level has in any letter case is refused; the table stays valid |
| Categories.CategoriesService.Update | src/categories/categories.service.ts:89-157 | success exactly when the id is known and the parent and (corrected) name checks pass; NotFound for an unknown id; a failure is NotFound or BadRequest and writes nothing; a success writes UpdateState and answers the updated category with all its children; the table stays valid and names stay unique per level |
| Categories.CategoriesService.Remove | src/categories/categories.service.ts:159-200 | the table and the answer are those Removal defines, and the table stays valid |
| Categories.CategoriesService.EnsureDefaultCategoryExists | src/categories/categories.service.ts:207-223 | the table and the error are those EnsureDefault defines, and the table stays valid |
| Categories.UniqueIdsSameRow | src/categories/entities/category.entity.ts:14-15 | with unique ids, a stored row with a category's id is that category |
| Categories.UpdateState | src/categories/categories.service.ts:142-147 | the category's row takes the update; every other row keeps all but its default flag, which is cleared when the update sets the default |
| Categories.ClearKeepsValid | src/categories/categories.service.ts:225-240 | clearing default flags keeps the table valid and names unique per level |
| Categories.UpdateKeepsValid | src/categories/categories.service.ts:142-147 | after the guards pass, the update's writes keep ids unique, the tree two-level and the default single, and names unique per level |
| Categories.UpdateKeepsTwoLevels | src/categories/categories.service.ts:101-122 | after the parent guards pass the tree stays two-level |
| Categories.UpdateKeepsNames | src/categories/categories.service.ts:124-147 | after the corrected name check passes, names stay unique per level |
| Categories.CreateKeepsValid | src/categories/categories.service.ts:78-84 | clearing defaults for a new default and appending a category with a fresh id, a free name and a top-level parent keeps the table valid |
| Categories.DeleteKeepsValid | src/categories/categories.service.ts:177-198 | deleting a category without children keeps ids unique, the tree two-level and the default single |
| Categories.KeptParentKept | src/categories/categories.service.ts:177-185 | once a childless category is deleted, every kept child still has its top-level parent |
| Products.TrimAll | src/products/products.service.ts:691 | one piece per input piece, each trimmed |
| Products.ParseCategoryIds | src/products/products.service.ts:677-696 | [] for absent or empty text, a list passed through as given, and otherwise only clean pieces: non-empty, comma-free, nothing to trim |
| Products.TrimmedPiece | src/products/products.service.ts:689-692 | trimming a comma-free piece leaves no comma and nothing more to trim |
| Products.TrimOfClean | src/products/products.service.ts:691 | text without whitespace at either end is its own trim |
| Products.FilterKeepsAll | src/products/products.service.ts:692 | filtering by a predicate every row meets keeps every row |
| Products.SplitJoinCommas | src/products/products.service.ts:690 | comma-free pieces joined with ',' split back into the same pieces |
| Products.ParseCategoryIdsRoundTrip | src/products/products.service.ts:677-696 | clean ids written comma-separated parse back into exactly those ids |
| Products.JoinOfCleanIsNotEmpty | src/products/products.service.ts:678-680 | joining at least one non-empty id is not the empty text that parses to [] |
| Products.TrimAllClean | src/products/products.service.ts:691 | trimming clean ids changes none |
| Products.CategoryIds | src/products/products.service.ts:719 | the categories' ids, in order |
| Products.ValidateCategories | src/products/products.service.ts:701-727 | only BadRequest; no ids succeed exactly when an active default exists; ids succeed exactly when they are distinct and all exist; every id returned exists |
| Products.FoundCategoriesExist | src/products/products.service.ts:716-726 | ids of categories taken from the table are the table's ids |
| Products.VariantIds | src/products/products.service.ts:273-278 | the variant ids, in order |
| Products.LookupVariant | src/products/products.service.ts:176-188 | a stored variant with that id; none exactly when no variant has it |
| Products.LookupDistinct | src/products/products.service.ts:176-188 | with distinct ids the lookup finds the one variant with the id |
| Products.MergeOne | src/products/products.service.ts:185-201 | the new colour always; a known variant keeps its id and images; any other entry gets the fresh id and no images |
| Products.MergeVariables | src/products/products.service.ts:175-205 | one variant per incoming entry in incoming order, with its colour; a known id keeps id and images; any other gets the fresh id uuid(i) and no images |
| Products.MergeKeepsExactlyListed | src/products/products.service.ts:185-204 | with fresh ids new to the product, an existing variant survives the merge exactly when an incoming entry names it |
| Products.AsInput | src/products/products.service.ts:185-201 | the product's own variants as the form sends them back, one entry each |
| Products.MergeResubmitted | src/products/products.service.ts:175-205 | variants with distinct non-empty ids, resubmitted unchanged, merge into themselves |
| Products.ActivationGuard | src/products/products.service.ts:207-226 | passes exactly when there are variants and each has an image; otherwise a BadRequest |
| Products.WithImages | src/products/products.service.ts:453-460 | only variant i's images change |
| Products.FilterOutIndex | src/products/products.service.ts:567 | for an index in range, every image but that one in order; otherwise the list unchanged |
| Products.DeleteKeepsOrder | src/products/products.service.ts:561-568 | one image fewer, those before and after the index in their order, and the same multiset with the removed image |
| Products.CollectImages | src/products/products.service.ts:303-311 | a URL is collected exactly when some variant has it |
| Products.SameIdsKeepUnique | src/products/entities/product.entity.ts:33-34 | a rewrite that keeps every row's id keeps the ids unique |
| Products.SaveVariables | src/products/products.service.ts:462-467 | the product's row gets the variables and the flag the activation rule gives them; every other row is kept |
| Products.SetVariables | src/products/products.service.ts:623-625 | the product's row gets the variables alone; every other row is kept |
| Products.SyncActive | src/products/products.service.ts:732-757 | the product's flag becomes the activation rule's value; every other row is kept |
| Products.ShouldBeActive | src/products/products.service.ts:732-757 | a product should be active exactly when it has at least one variant and every variant has an image |
| Products.SyncActiveNoChange | src/products/products.service.ts:748-756 | when the flag already follows the rule, nothing is written |
| Products.SaveIsSetThenSync | src/products/products.service.ts:462-467 | writing the variables then running the activation check is the one write SaveVariables describes |
| Products.VariantAt | src/products/products.service.ts:436-445 | success gives the stored product with that id whose variables reach past the index; 'Product not found' exactly when no product has the id; any other failure is 'Variant not found' |
| Products.DeletedPublicId | src/products/products.service.ts:574-581 | a public id is destroyed only for an image index in range whose URL yields a non-empty id, and it is that id |
| Products.UploadSpec | src/products/products.service.ts:431-474 | success exactly when the index is a variant's; a failure writes nothing; a success appends the URLs after that variant's images, leaves every other variant and product alone, and sets the flag by the rule |
| Products.FoundAt | src/products/repositories/product.repository.ts:34-47 | with unique ids the lookup finds the product at its position, and no other row has its id |
| Products.ReplaceSpec | src/products/products.service.ts:479-535 | success exactly when the index is a variant's; a failure writes nothing; a success puts the URLs in place of that variant's images, and the product is active exactly when some URL was uploaded and every other variant has an image |
| Products.DeleteImageSpec | src/products/products.service.ts:540-595 | for a valid variant, success exactly when the image index is below the image count; a failure writes nothing; a success removes the image at the index, keeps the others in order, and sets the flag by the rule |
| Products.ReorderSpec | src/products/products.service.ts:600-632 | the given list becomes the variant's images; the flag is not re-derived; a failure or a negative index writes nothing |
| Products.Upload | src/products/products.service.ts:431-474 | the table keeps its length, a failure writes nothing, other products stay, and a success is that product with the URLs appended to the variant's images |
| Products.Replace | src/products/products.service.ts:479-535 | the table keeps its length, a failure writes nothing, other products stay, and a success is that product whose variant holds exactly the URLs |
| Products.DeleteImage | src/products/products.service.ts:540-595 | the table keeps its length, a failure writes nothing, other products stay; 'Image not found' only for a product that exists |
| Products.Reorder | src/products/products.service.ts:600-632 | the table keeps its length, a failure writes nothing, other products stay, and a success gives the variant the given list |
| Products.ReorderCanEmptyAnActiveProduct | src/products/products.service.ts:600-632 | a reorder to an empty list leaves an active product active with a variant that has no image |
| Products.WithFreshIds | src/products/products.service.ts:85-88 | each variable under its fresh id with its own colour and images |
| Products.CreateSpec | src/products/products.service.ts:63-118 | success exactly when the categories validate, the quality is an active one and the id is free; a failure saves nothing and is a BadRequest or a duplicate id; a created product is inactive, in its validated categories, of an active quality, and each variable has the fresh id uuid(i) and its own colour and images; the description is not stored |
| Products.Create | src/products/products.service.ts:63-118 | a failure saves nothing; a success appends the created product, with the new id, inactive, of the requested quality |
| Products.ColorIdsOf | src/products/products.service.ts:156 | the colour ids of the variables, in order |
| Products.Repeats | src/products/products.service.ts:157 | empty exactly when no colour id repeats |
| Products.CheckColors | src/products/products.service.ts:155-173 | only BadRequest; passes exactly when no colour repeats and every colour exists |
| Products.ColorIdsFound | src/products/products.service.ts:168 | the found colours' ids, in order |
| Products.ColorsFound | src/products/products.service.ts:165-167 | the distinct colour ids are all found exactly when every variable's colour exists |
| Products.PlanUpdate | src/products/products.service.ts:132-226 | every guard failure is a BadRequest |
| Products.UpdateRefusesBadColors | src/products/products.service.ts:154-173 | variables that repeat a colour or name a missing colour are refused |
| Products.PlanUpdateSpec | src/products/products.service.ts:132-226 | after the guards pass, the plan has the validated categories when given, the merge of the given variables, and an activation request that passed the variant and image check |
| Products.WriteUpdate | src/products/products.service.ts:228-259 | the product's row takes the given name, price, quality, flag, the merged variables if given and the new categories if given; every other row is kept |
| Products.DropRequests | src/products/products.service.ts:281-285 | a request to drop a variant's cart lines exists exactly for each old id that is not kept, and only for that product |
| Products.DropRemovedVariants | src/products/products.service.ts:271-286 | the loop asks exactly the drops DropRequests describes, in order |
| Products.UpdateSpec | src/products/products.service.ts:120-293 | fails exactly when a guard fails (a BadRequest) or, past the guards, a description is given (EntityPropertyNotFoundError); a failure writes nothing; a success rewrites that product alone into its updated row and returns it |
| Products.Update | src/products/products.service.ts:120-293 | the table keeps its length; no product and nothing written exactly for an unknown id; a failure writes nothing; every other product stays |
| Products.UpdatedSpec | src/products/products.service.ts:228-264 | the given name, price and quality written, the others kept; with variables, the merge and the rule's flag whatever active said; without, the stored variables and the given flag; an activation request leaves an active product whose variants all have images |
| Products.UpdateDropsUnlistedVariants | src/products/products.service.ts:271-286 | with fresh ids new to the product, update asks to drop an old variant's cart lines exactly when no incoming entry names it |
| Products.CloneQuality | src/products/products.service.ts:370-392 | a different quality is taken only when asked for and it exists and is active; failure exactly when a new, truthy quality id has no active quality |
| Products.CloneVariables | src/products/products.service.ts:394-399 | one variable per original, under the fresh id uuid(i), with the same colour and a copy of the images; none for none |
| Products.CloneSpec | src/products/products.service.ts:354-426 | success exactly when the product exists and is active, a new quality asked for is active, and the id is free; a failure saves nothing; an unknown id is NotFound; the clone is active, keeps name, price and categories, and has one variant per original under a fresh id with its colour and images |
| Products.Clone | src/products/products.service.ts:354-426 | a failure saves nothing; a success appends the clone, with the new id and active |
| Products.ProductService.constructor | src/products/products.service.ts:26-35 | the service holds the given products |
| Products.ProductService.CheckAndUpdateActiveStatus | src/products/products.service.ts:732-757 | the table SyncActive describes; it writes exactly when a product with the id has the wrong flag |
| Products.ProductService.CreateProduct | src/products/products.service.ts:63-118 | the table and the answer are those Create defines, and ids stay unique |
| Products.ProductService.UpdateProduct | src/products/products.service.ts:120-293 | the table and the answer are those Update defines, and the cart requests are those UpdateRequests defines |
| Products.ProductService.Remove | src/products/products.service.ts:295-345 | false and nothing done for an unknown id; otherwise the row is deleted, the product's cart lines are dropped and the public ids of all its variants' images are destroyed |
| Products.ProductService.CloneProduct | src/products/products.service.ts:354-426 | the table and the answer are those Clone defines |
| Products.ProductService.UploadVariantImages | src/products/products.service.ts:431-474 | the table and the answer are those Upload defines |
| Products.ProductService.ReplaceVariantImages | src/products/products.service.ts:479-535 | the table and the answer are those Replace defines; on success the old images' public ids are destroyed |
| Products.ProductService.DeleteVariantImage | src/products/products.service.ts:540-595 | the table and the answer are those DeleteImage defines; on success the removed image's public id, if it has one, is destroyed |
| Products.ProductService.ReorderVariantImages | src/products/products.service.ts:600-632 | the table and the answer are those Reorder defines |
| Products.SaveVariablesKeepsUnique | src/products/products.service.ts:462-464 | writing a product's variables keeps the ids unique |
| Products.FilterKeepsUnique | src/products/products.service.ts:314 | deleting by id keeps the ids unique |
| Products.RemoveDestroysOnlyItsImages | src/products/products.service.ts:303-342 | every public id remove destroys is that of an image of one of the product's variants |
| Qualities.AppendKeepsUnique | src/qualities/entities/quality.entity.ts:14-19 | inserting a row whose id the table lacks and whose name it lacks in any letter case keeps ids and names unique |
| Qualities.SeedStepAsWritten | src/qualities/qualities.service.ts:104-111 | a default is skipped only when an active quality has its name; when only an inactive row has it, the insert breaks the unique name and fails |
| Qualities.SeedStopsAtDeactivatedDefault | src/qualities/qualities.service.ts:104-111 | with 'premium' deactivated, the first round of the seed loop fails with a duplicate entry, so the later defaults are never reached |
| Qualities.SeedStep | src/qualities/qualities.service.ts:104-111 | a default whose name any row has is skipped; otherwise it is inserted and the table only grows; failure exactly when the name is new and the fresh id is taken |
| Qualities.SeedFrom | src/qualities/qualities.service.ts:97-112 | seeding from any default on only adds rows |
| Qualities.NameTakenInExtension | src/qualities/qualities.service.ts:104-111 | a name the table has stays taken as rows are added |
| Qualities.SeedEstablishes | src/qualities/qualities.service.ts:97-112 | a seed run without error leaves a quality under every default name |
| Qualities.SeedNoOpWhenPresent | src/qualities/qualities.service.ts:104-106 | where every default name is present, seeding writes nothing and reports no error |
| Qualities.SeedIdempotent | src/qualities/qualities.service.ts:97-112 | seeding twice is seeding once, whatever ids and time the second run gets |
| Qualities.SeedSucceedsWithFreshIds | src/qualities/qualities.service.ts:97-112 | with ids that are fresh and distinct, seeding never fails |
| Qualities.SeedKeepsUnique | src/qualities/qualities.service.ts:97-112 | seeding keeps ids and names unique |
| Qualities.AmendmentFailures | src/qualities/qualities.service.ts:50-75 | a failed update writes nothing; NotFound exactly for an unknown id, otherwise the name check's BadRequest or the unique name's duplicate entry |
| Qualities.AmendmentWrites | src/qualities/qualities.service.ts:64-78 | a successful update answers the stored row with that id, keeps its id and creation time, writes the given name lowercased and the given description and flag, and replaces that row alone |
| Qualities.AmendmentNameFree | src/qualities/qualities.service.ts:57-62 | after a successful rename to a new, truthy name no other active quality has that name in any letter case |
| Qualities.SameNameSameRow | src/qualities/entities/quality.entity.ts:17-19 | with names unique under the collation, two rows whose names differ only in letter case are one row |
| Qualities.AmendmentKeepsUnique | src/qualities/qualities.service.ts:50-79 | update keeps ids and names unique |
| Qualities.Amendment | src/qualities/qualities.service.ts:50-79 | the table keeps its length and a failure writes nothing; a success answers a stored row with that id, named the lowercased new name when a truthy one is given; every other row stays |
| Qualities.ReplaceKeepsUnique | src/qualities/qualities.service.ts:75 | replacing the row with that id by one whose name no other row has keeps ids and names unique |
| Qualities.NothingToFilter | src/qualities/qualities.service.ts:93 | deleting an id no row has leaves the table as it was |
| Qualities.QualitiesService.constructor | src/qualities/qualities.service.ts:11-13 | the service holds the given qualities |
| Qualities.QualitiesService.Create | src/qualities/qualities.service.ts:33-48 | BadRequest 'Quality with name "…" already exists' when an active quality has the name in any letter case; a duplicate entry when the lowercased name (in any case) or the id is taken; otherwise the new quality, lowercased, active unless told otherwise, appended and returned |
| Qualities.QualitiesService.Update | src/qualities/qualities.service.ts:50-79 | the table and the answer are those Amendment defines, so a rename to a name an active quality has in any letter case is a BadRequest; names (in any letter case) and ids stay unique |
| Qualities.QualitiesService.Edit | src/qualities/qualities.service.ts:64-73 | the given fields, and only those, are written, the name lowercased |
| Qualities.QualitiesService.Remove | src/qualities/qualities.service.ts:81-95 | false exactly when no row has the id; a refusal by the foreign key, with nothing deleted, exactly when the quality exists and a product still references it; true otherwise, the rows with that id deleted and every other row kept in order |
| Qualities.QualitiesService.Seed | src/qualities/qualities.service.ts:97-112 | the loop ends with the table and the error SeedFrom defines; without an error every default name is present |
| Orders.MapToSummary | src/orders/orders.service.ts:71-88 | the summary carries the order's id, reference, states and amount; the buyer's name and phone, or '' twice when there is no buyer data; an item count that is 0 exactly when there is no snapshot or it has no lines |
| Orders.MapToDetail | src/orders/orders.service.ts:90-114 | the detail copies the id, reference, status, amount, snapshot and tracking state and times |
| Orders.DetailRoundTrip | src/orders/orders.service.ts:90-114 | the detail view loses nothing: the order can be rebuilt from it, and two orders with the same detail are equal |
| Orders.SummaryAgreesWithDetail | src/orders/orders.service.ts:71-114 | the summary and the detail of an order agree on every field they share, and the item count is the detail snapshot's line count |
| Orders.Track | src/orders/orders.service.ts:47-65 | only the tracking fields change; the status is always set, number and notes only when given, and a shipped (delivered) time exists afterwards exactly when one existed or the new state is SHIPPED (DELIVERED); a recorded time is never overwritten |
| Orders.TrackIdempotent | src/orders/orders.service.ts:47-65 | repeating a tracking write, at any later time, changes nothing more |
| Orders.StampsAreWrittenOnce | src/orders/orders.service.ts:59-65 | after any run of tracking writes, the shipped time is the one recorded before, else the time of the first SHIPPED write (likewise delivered), and payment status, amount and snapshot are unchanged |
| Orders.FindById | src/orders/orders.service.ts:24-34 | a stored order with that id; none exactly when no order has it |
| Orders.UpdateTrackingSpec | src/orders/orders.service.ts:33-69 | NotFound for an unknown id and BadRequest naming the status for an order that is not APPROVED, with nothing changed; otherwise the order with that id, and no other, gets the tracking write and its detail is returned |
| Orders.TrackingUpdate | src/orders/orders.service.ts:33-69 | the table keeps its length and a failure writes nothing; a success means the order exists and is APPROVED and answers its id; every other order stays |
| Orders.UpdateTrackingKeepsPayment | src/orders/orders.service.ts:47-67 | tracking never changes any order's payment status, amount or snapshot |
| Orders.UpdateTrackingKeepsValid | src/orders/orders.service.ts:67 | order ids and references stay unique |
| Orders.OrdersService.constructor | src/orders/orders.service.ts:9 | the service holds the given orders |
| Orders.OrdersService.FindOne | src/orders/orders.service.ts:23-31 | success exactly when an order has that id, and then the detail of a stored order with that id; otherwise NotFound 'Order with ID … not found' |
| Orders.OrdersService.UpdateTracking | src/orders/orders.service.ts:33-69 | the orders and the answer are those UpdateTrackingSpec describes, and ids and references stay unique |
| Sorting.SortBy | src/qualities/repositories/quality.repository.ts:53-58 | ORDER BY on a text column: the result is sorted by the key (the repositories pass the lower-cased name as the collation key) and is a permutation of the input |
| Text.Split | src/image-upload/image-upload.service.ts:39 | `split` on one character: at least one piece, and no piece holds the separator |
| Text.JoinSplit | src/image-upload/image-upload.service.ts:39 | joining the pieces of a split with the separator gives the text back |
| Text.Trim | src/products/products.service.ts:691 | `trim`: a contiguous piece of the text with no whitespace at either end |
| Text.ToLower | src/qualities/qualities.service.ts:41 | `toLowerCase` on the ASCII letters: same length, each character lowered, no upper-case letter left |
| Text.ToLowerIdempotent | src/qualities/qualities.service.ts:41 | lower-casing twice is lower-casing once |
| Text.ToUpper | src/payments/payment.controller.ts:95 | `toUpperCase` on the ASCII letters: same length, each character raised |
| Text.SameText | src/qualities/repositories/quality.repository.ts:66-70 | equal texts compare equal under the collation, and texts that compare equal have the same length and match character by character, letter case aside |
| Text.PercentMatchesAll | src/colors/repositories/color.repository.ts:26-30 | the pattern `%` matches every text |
| Text.LikePattern | src/colors/repositories/color.repository.ts:26-30 | an empty pattern matches only the empty text, and a pattern starting with `_` never matches the empty text |
| Text.LeadingPercent | src/colors/repositories/color.repository.ts:26-30 | a pattern `%rest` matches exactly when `rest` matches some suffix of the text |
| Text.PlainPrefix | src/colors/repositories/color.repository.ts:26-30 | a pattern without wildcards followed by `%` matches exactly the texts that start with it in any letter case |
| Text.LikeOfPlainText | src/colors/repositories/color.repository.ts:26-30 | searching for a text without wildcards or backslashes matches exactly the texts that contain it in any letter case |
| Text.UnderscoreSearchMatchesAnyText | src/colors/repositories/color.repository.ts:26-30 | the search `_` matches every non-empty text |
| Webhook.ToUpperIdempotent | src/payments/payment.controller.ts:95 | upper-casing twice is upper-casing once, so the status match ignores case |
| Text.NatToString | src/payments/payment.service.ts:240 | the decimal rendering of a count or amount: digits only, no leading zero |
| Text.NatToStringRoundTrip | src/payments/payment.service.ts:240 | the rendering reads back as the number |

## Left out

- Controllers other than the payment webhook, Nest modules, guards, authentication, and DTO validation. Validated input is taken as given: a category `parentId` is a UUID or absent, so the `parentId != Some("")` preconditions of `Categories.CategoriesService.Create` and `Update` are that validation.
- Logging, e-mail and Telegram notifications, cron jobs, and the configuration module. The payment configuration is read from given values.
- SHA-256 internals and `crypto.subtle`. The digest is an uninterpreted 32-byte function.
- `new URL(...)` parsing. `pathnameOf` gives the path or fails, and a failure is the `null` that `extractPublicIdFromUrl` returns from its catch.
- `ImageUploadService.upload` and `remove`, the Cloudinary calls. Uploaded URLs are inputs, and a removal is recorded as the public id destroyed.
- A failed Cloudinary removal inside `Promise.allSettled` or a `try` is not modelled: every removal is taken to happen. Such a failure never reaches the caller in the source either.
- The requests the product service makes of the cart service are returned as `CartEffect` values. The cart-service methods behind them (`updateCartItemsByProductPrice`, `removeCartItemsByVariant`, `removeCartItemsByProduct`) are not part of this model.
- `cleanupOrphanedImages`. It only counts images and always reports nothing removed.
- `cleanupExpiredCarts` and `CartRepository.deleteExpired`, which depend on the wall-clock delete query.
- `findAll` and `findOne` of the services and the products `mapToDto`, which add colour names. They are covered only through the repository filters and lookups they call.
- The pass-through repository methods `create`, `save`, `update`, `delete`, `find` and `findOne`. They are modelled as direct table writes and reads.
- `QualityRepository.findByIds`, `CategoryRepository.count(filters)`, and the order repository finders other than `findByReference`.
- Concurrency. Two requests never interleave, and each service call is atomic.
- Floating point. Amounts are exact cents, so `Math.round(total * 100)` is the total itself.
- `updatedAt` / `updated_at`. These timestamps are kept by the database and are not modelled, so the order summary and detail views do not carry `updated_at`.
- `order.entity.ts` declares no tracking columns, but `orders.service.ts` reads and writes them. The model gives orders the tracking fields the service uses.
- A `null` tracking number or notes in the request is treated like an absent one.
- Webhook fields that are present but not strings (an event or a status of another JSON type) are not modelled. The notification is a record of optional strings.
- Whether the order `session_id` column accepts NULL depends on the server's SQL mode. The model lets it be absent.
- `Products.PlanUpdate`: its own contract states only that a failure is a BadRequest. What a passing plan holds is stated by `Products.PlanUpdateSpec`.
- `Qualities.SeedFrom`: its own contract states only that rows are added. What seeding establishes is stated by `SeedEstablishes`, `SeedIdempotent` and `SeedKeepsUnique`.
- Carts.CartService.DeleteCart: the cart's lines are kept in the table. `cart-item.entity.ts`, which declares what the database does to a line when its cart is deleted, is not part of this model; `cascade: true` on `Cart.items` governs saves, not deletes.
- Carts.ActiveCart: compares the session id exactly. Under the server's case-insensitive collation 'S1' would find the cart of 's1'; session ids are client-chosen header values, and the model treats two that differ in case as two sessions.
- Carts.InsertAsWritten: the unique session id is compared exactly, so two session ids that differ only in letter case do not collide in the model, while the collation would make the insert fail.
- Payments.FindByReference: compares the reference exactly, while the collation would also match a reference differing in letter case. References are generated, so two never differ in case alone.
- Payments.OrdersApart: the reference is compared exactly, so the model's uniqueness of references is case-sensitive where the unique column is not.
- Text.SameText: folds only the ASCII letters A-Z. The collation's folding of other letters and its accent-insensitivity ('é' equal to 'e') are not modelled.
- Text.ToLower: maps only A-Z to a-z; other characters are kept.
- Text.ToUpper: maps only a-z to A-Z; other characters are kept.
- Sorting.SortBy: the name ordering compares lower-cased code points, which approximates the collation's weights. Ties keep no particular order.

## Findings

| source | as written | input that shows it | evidently intended | confidence | as-written member | corrected member |
|---|---|---|---|---|---|---|
| src/payments/payment.controller.ts:48-50 | `verifyWebhookSignature(webhookData)` passes one argument to a method that takes `(payload, signature)`, so the digest is compared with `undefined` and is never equal | a genuine APPROVED notification for order 'ref-1' | a notification with a valid signature updates the order's status | not executed | Webhook.DecideAsWritten, Webhook.WebhookAsWrittenDropsApproval | Webhook.Decide, Webhook.PaymentController.HandleWebhook |
| src/cart/cart.service.ts:95-106 | a new cart line copies neither `variantId` nor `talla` from the request | any product with variants: the stored line fails checkout with 'Variant null not found in product …' | the line keeps the chosen variant and size, so checkout finds the variant | not executed | Carts.NewLineAsWritten, Payments.AddedLineFailsCheckoutAsWritten | Carts.NewLine, Payments.AddedLinePassesCheckout |
| src/categories/categories.service.ts:124-140 | the name check runs only when the name changes, so a move to another level under the same name is not checked; and the lookup does not exclude the category itself, so a rename that only changes letter case finds itself under the case-insensitive collation | child 'Tees' of 'Men' moved to the top level, where 'Tees' exists; top-level 'Tees' renamed 'TEES' | names stay unique per level through every update, and a category may change the case of its own name | not executed | Categories.NameGuardAsWritten, Categories.NameGuardAsWrittenMissesMove, Categories.NameGuardAsWrittenRefusesRecase | Categories.NameGuard, Categories.NameGuardKeepsNamesUnique |
| src/categories/categories.service.ts:66-76 | a top-level lookup passes `parentId: null`, which the query builder drops from the condition, so the name is looked up on every level | a subcategory 'Tees' of 'Men', then creating top-level 'Tees' or renaming top-level 'Shirts' to 'Tees' | a top-level name is refused only when another top-level category has it | not executed | Categories.CreateGuardAsWritten, Categories.CreateGuardAsWrittenRefusesNameOfChild, Categories.NameGuardAsWrittenRefusesNameOfChild | Categories.CreateGuard, Categories.CreateGuardPasses, Categories.NameGuard |
| src/categories/categories.service.ts:207-223 | 'General' is created as the default without clearing an inactive default, which `findDefaultCategory` does not see | one inactive default category 'Old' | at most one category is the default | not executed | Categories.EnsureDefaultAsWrittenMakesTwoDefaults | Categories.EnsureDefault, Categories.EnsureDefaultIdempotent |
| src/cart/entities/cart.entity.ts:23-25 | `sessionId` is a unique column, so the replacement cart for an expired one cannot be inserted beside the abandoned row | session 's1' whose only cart expired | an expired cart is abandoned and replaced by a new active cart | not executed | Carts.ExpiredSessionStuckAsWritten | Carts.GetOrCreate, Carts.GetOrCreateReplacesExpired |
| src/qualities/qualities.service.ts:104-111 | a default is skipped only when an active quality has its name, and inserting it again breaks the unique name | 'premium' present but deactivated | seeding inserts only missing names and never fails on present ones | not executed | Qualities.SeedStepAsWritten, Qualities.SeedStopsAtDeactivatedDefault | Qualities.SeedStep, Qualities.SeedIdempotent |
| src/products/repositories/product.repository.ts:62-90 | the search uses `ILIKE` and the colour filter `json_array_elements` and `::jsonb`, which are PostgreSQL syntax on a MySQL connection, so the server refuses the query | the search 'tee', or the colour filter ['red'], over the active product 'Tee' with a red variant | a search lists products whose name matches in any case, and a colour filter lists products with a variant of a listed colour | not executed | ProductRepository.FindWithFiltersAsWritten, ProductRepository.SearchAndColourFailAsWritten | ProductRepository.FindWithFilters, ProductRepository.ColorFilterAnyVariant |

# wpsync-webspark: the reconciliation pass

This project models `wpsync_webspark_get_data`, the scheduled job of the WordPress plugin
wpsync-webspark. The job mirrors a remote product feed into the WooCommerce catalog. It then
proves what one pass does to the catalog. A pass has two phases over a non-empty snapshot
of feed records:

1. Every product id the catalog lists is loaded and checked. A product whose SKU no record
   carries is hard-deleted. Otherwise the product is updated from the first record with its
   SKU and saved once. Only the fields the record has, and whose value differs, are written.
   Ids that cannot be loaded are left alone, but they are still counted.
2. If fewer than 2000 listed ids survive phase 1, the records are walked in snapshot order.
   A product is created for each SKU that is new to the catalog. The walk stops once
   `2000 - count` products have been created.

It also models the three helpers the pass uses:
- the SKU index (`wpsync_webspark_get_all_articles`, with the `in_array` and `array_search` calls on its result);
- the price strip (`wpsync_webspark_get_price`);
- the picture resolver (`wpsync_webspark_get_image_file_info`).

Modules:
- `Records`: feed records (every field optional), WooCommerce products, field names, and
  the `Oracles` bundle. The bundle stands for the WordPress calls whose behaviour is outside
  the model: `floatval`, whether `set_sku` accepts a SKU, the basename of an attachment's
  file, and `media_sideload_image` followed by `get_post_thumbnail_id`.
- `Price`: the strip, as a function with its properties.
- `SkuIndex`: the index-building loop, as a method proved against a map comprehension;
  array search; the lookup lemmas.
- `ImageFile`: `explode`/`implode` on `'/'`, ASCII case-insensitive substring search, and
  the resolver's nested loops, as a method proved against a function.
- `Sync`: the catalog as a class (`Catalog`) whose methods follow the source's loops. Each
  method is proved equal to a fold-left specification (`SweepAll`, `InsertFrom`, `Run`) over
  a value view of the catalog (`Store`). A `Store` holds the products, the next post id,
  and a journal of deletions, creations and saves. A save records the set of fields written.
- `SyncProofs`: what a pass guarantees, proved on those specifications. The proofs cover
  deletion completeness, one save per updated product, updates from the first matching
  record, untouched unlisted and unloadable products, the cap, insertion order, and no
  duplicate creation.

Where the code and its description differ, the model follows the code:
- An empty-string SKU is a present SKU. `isset` is the only test at lines 134 and 197.
  So a record with `sku: ""` is indexed, and a product whose SKU is `""` survives phase 1
  when such a record exists.
- The count the cap is computed from is `count($products)` after the `unset` calls (line 126).
  That count includes listed ids that could not be loaded (`Sync.SweepAll`, `SyncProofs.SweepCount`).
- A second pass over an unchanged snapshot is not write-free. Line 121 calls `save()` on every
  matched product on every pass, whether or not a setter was called
  (`SyncProofs.SweepUpdatesMatchedOnce` holds for every pass). Lines 109-111 sideload the picture
  again whenever its resolved name differs from the basename of the attached file.
  What is proved about repeating a pass:
  - `SyncProofs.RefreshSettles`: the second update of one product writes at most its image.
  - `SyncProofs.SecondPassKeeps`: a second pass deletes no product that the first pass updated or created.
  - `SyncProofs.SecondPassCreatesNoneAgain`: a second pass creates no SKU that the first pass created.
- The stored image id is not the id of the attachment just created. Lines 111 and 169 store
  `get_post_thumbnail_id` of the product. The result of `media_sideload_image` is discarded, apart
  from its error test. The model keeps that value as an oracle result (`Records.Oracles.sideload`).

## Model

| member | source | states |
|---|---|---|
| Price.GetPrice | wpsync-webspark.php:208-210 | definition: `floatval` of the stripped string, which is the whole of `wpsync_webspark_get_price` |
| Price.StripPrice | wpsync-webspark.php:209 | the result keeps only digits, `.` and `,`; it is no longer than the input; and it is the input itself when the input has nothing else |
| Price.StripPriceCounts | wpsync-webspark.php:209 | each digit, `.` and `,` survives exactly as often as in the input, and every other character is dropped |
| Price.StripPriceConcat | wpsync-webspark.php:209 | the strip works character by character, so the kept characters keep their order |
| Price.StripPriceIdempotent | wpsync-webspark.php:209 | stripping a stripped price changes nothing |
| Price.GetPriceIgnoresNoise | wpsync-webspark.php:208-210 | the stored price depends only on the price characters of the feed string, in order |
| SkuIndex.Articles | wpsync-webspark.php:193-203 | definition: the map from each snapshot position whose record has a SKU (`isset`) to that SKU |
| SkuIndex.GetAllArticles | wpsync-webspark.php:193-203 | the index has an entry at position k iff record k has a SKU, and that entry is the SKU |
| SkuIndex.ArraySearch | wpsync-webspark.php:83 | returns the smallest key holding the SKU, or nothing when no key holds it |
| SkuIndex.InArrayIffPresent | wpsync-webspark.php:79-83 | `in_array` on the index holds iff some record carries the SKU, iff `array_search` finds a key |
| SkuIndex.LookupFindsFirstOccurrence | wpsync-webspark.php:83-84 | the record used for an update is the first one carrying the SKU; later duplicates are never reached |
| ImageFile.ContainsIgnoringCase | wpsync-webspark.php:229 | definition: `stripos(hay, needle) !== false`, that is the needle occurs at some position of the hay under ASCII case folding |
| ImageFile.Explode | wpsync-webspark.php:224 | splitting on `'/'` gives at least one segment, and no segment contains `'/'` |
| ImageFile.LastImageSegment | wpsync-webspark.php:227-234 | the index found is the last segment that contains an extension; none is found only if no segment has one |
| ImageFile.ImageFileInfo | wpsync-webspark.php:215-245 | definition: for the last `'/'`-segment holding one of the five extensions, the segment as name and the join of the segments up to it as path; None (PHP `false`) when no segment holds one |
| ImageFile.GetImageFileInfo | wpsync-webspark.php:215-245 | the nested loops return the last matching segment as the name, and the segments up to it joined by `'/'` as the path, or false |
| ImageFile.MatchesFirstExtensionsMeaning | wpsync-webspark.php:228-233 | the inner loop's running match over the first e extensions holds iff one of them occurs in the segment |
| ImageFile.Implode | wpsync-webspark.php:239 | definition: the segments joined with `'/'` between consecutive ones; empty for no segments |
| ImageFile.ImplodeExplode | wpsync-webspark.php:224-239 | joining the split segments on `'/'` gives back the input |
| ImageFile.ExplodeImplode | wpsync-webspark.php:224-239 | splitting a join of `'/'`-free segments gives back those segments |
| ImageFile.ImplodeFirstChar | wpsync-webspark.php:239 | a join whose first segment is not empty starts with that segment's first character, followed by the join without it |
| ImageFile.ImplodePrefix | wpsync-webspark.php:239 | the join of all segments is the join of a leading run, then `'/'`, then the join of the rest |
| ImageFile.ImplodeEndsWithLast | wpsync-webspark.php:239 | a join ends with its last segment |
| ImageFile.ImplodeLeadingRun | wpsync-webspark.php:239 | the join of a leading run of segments is a prefix of the join of all of them |
| ImageFile.ImageFileInfoFound | wpsync-webspark.php:224-244 | a file is found iff some segment contains one of the extensions, ignoring case |
| ImageFile.ImagePathOfSegment | wpsync-webspark.php:239 | the join of the segments up to k is a prefix of the input and ends with segment k |
| ImageFile.ImageFileInfoMeaning | wpsync-webspark.php:236-241 | the name found contains an extension and no `'/'`; the path is a prefix of the input and ends with the name |
| Sync.NewImage | wpsync-webspark.php:102-115 | definition: the thumbnail id read after a successful sideload, when the record has a picture, it resolves, and its name differs from the basename of the attached file; None otherwise |
| Sync.SetName | wpsync-webspark.php:86-88 | the name takes the record's value when present; it is written only when it differs; no other field changes |
| Sync.SetDescription | wpsync-webspark.php:90-92 | the same for the description |
| Sync.SetPrice | wpsync-webspark.php:94-100 | the same for the regular price, compared after the strip and `floatval` |
| Sync.SetImage | wpsync-webspark.php:102-115 | the image changes, and is written, only when `NewImage` gives the thumbnail id read after a successful sideload; no other field changes |
| Sync.SetStock | wpsync-webspark.php:117-119 | the same as SetName, for the stock quantity |
| Sync.Refresh | wpsync-webspark.php:86-119 | definition: the name, description, price, image and stock setters applied in the source's order, with the set of fields they wrote |
| Sync.RefreshValues | wpsync-webspark.php:86-119 | each of name, description, price and stock takes the record's value when the record has one. The image becomes the thumbnail id read after a successful sideload, when there is one. SKU, stock management and stock status are kept |
| Sync.RefreshWrites | wpsync-webspark.php:86-119 | a field is written iff the record has it and its value differs from the product's. The image is written iff the picture resolves, its name differs from the attached file's, and the sideload succeeds. Nothing else is written |
| Sync.UpdateFields | wpsync-webspark.php:86-119 | the setter sequence on a loaded product yields exactly the product and written fields of `Refresh`, the setters in source order |
| Sync.SideloadChangedPicture | wpsync-webspark.php:102-115 | resolving the picture, comparing names and sideloading yields `NewImage` |
| Sync.NewProduct | wpsync-webspark.php:136-160 | a new product has the accepted SKU and the record's name, description, price and stock. With `in_stock` it gets stock management on, status "instock" and that quantity; without it, no stock management |
| Sync.FillNewProduct | wpsync-webspark.php:136-160 | the setter calls on a fresh product yield `NewProduct` |
| Sync.NewProductImage | wpsync-webspark.php:164-172 | a new product gets a thumbnail id only if it has a picture that resolves |
| Sync.SideloadNewPicture | wpsync-webspark.php:164-172 | resolving and sideloading the picture yields `NewProductImage` |
| Sync.CreatedProduct | wpsync-webspark.php:136-172 | definition: `NewProduct` of the record, with the thumbnail id read after a successful sideload when `NewProductImage` gives one |
| Sync.CreateStep | wpsync-webspark.php:136-174 | definition: `CreatedProduct` stored under the next id, the counter advanced, and Created then Saved (with `Image` when a thumbnail id was set) journalled |
| Sync.SweepStep | wpsync-webspark.php:74-122 | definition: an unloadable id is kept untouched; a product whose SKU is not indexed is deleted and dropped; otherwise it becomes `Refresh` of the record `array_search` finds, is saved once and kept |
| Sync.SweepAll | wpsync-webspark.php:73-124 | definition: `SweepStep` over the listed ids in order |
| Sync.HasSku | wpsync-webspark.php:134 | definition: `wc_get_product_id_by_sku` is non-zero, that is some product in the catalog has the SKU |
| Sync.InsertFrom | wpsync-webspark.php:133-182 | definition: the records in order; one with a SKU the catalog lacks is skipped when `set_sku` rejects it, otherwise `CreateStep`, and the walk stops when the allowance reaches 0 |
| Sync.Run | wpsync-webspark.php:62-184 | definition: no change on an empty snapshot; otherwise `SweepAll` over the listed ids, then `InsertFrom` with an allowance of 2000 minus the number of kept ids, when fewer than 2000 are kept |
| Sync.Catalog.CreateProduct | wpsync-webspark.php:136-174 | the product gets the next id, is logged as created and then saved a second time, and carries the thumbnail id read after a successful sideload of its picture, when there is one |
| Sync.Catalog.PruneAndUpdate | wpsync-webspark.php:73-124 | the first loop leaves the catalog, journal and surviving id list exactly as `SweepAll` specifies |
| Sync.Catalog.AddNewProducts | wpsync-webspark.php:133-182 | the second loop, with its `continue` and its `break`, leaves the catalog as `InsertFrom` specifies |
| Sync.Catalog.Reconcile | wpsync-webspark.php:62-184 | the pass leaves the catalog as `Run` specifies, leaves it unchanged when the snapshot is empty, and keeps `Valid` (every product id below the id counter) |
| Sync.SweepKeepsFresh | wpsync-webspark.php:73-124 | the first loop keeps every product id below the id counter and hands out no id |
| Sync.InsertKeepsFresh | wpsync-webspark.php:133-182 | the second loop keeps every product id below the id counter |
| Sync.RunKeepsFresh | wpsync-webspark.php:62-184 | a whole pass keeps every product id below the id counter |
| SyncProofs.StepFrame | wpsync-webspark.php:73-124 | handling one listed id does not touch another id's product, list membership, saves or deletions |
| SyncProofs.StepOwnView | wpsync-webspark.php:74-122 | what one iteration does to its id depends only on that id's product: kept if unloadable, deleted once if its SKU is absent, otherwise refreshed, saved once and kept |
| SyncProofs.StepLocal | wpsync-webspark.php:74-122 | two catalogs that agree on an id agree on it after that id's iteration |
| SyncProofs.SweepFrame | wpsync-webspark.php:73-124 | ids the first loop does not visit keep their product, list membership, saves and deletions |
| SyncProofs.SweepPointwise | wpsync-webspark.php:73-124 | with distinct listed ids, the whole loop does to each id what its own iteration does |
| SyncProofs.SweepDeletesAbsent | wpsync-webspark.php:79-81 | a listed product whose SKU no record carries is deleted exactly once, never saved, and removed from the list |
| SyncProofs.SweepUpdatesMatchedOnce | wpsync-webspark.php:82-121 | a listed product whose SKU first appears in record k becomes `Refresh` of record k. It is saved exactly once, not deleted, and stays in the list |
| SyncProofs.SweepKeepsUnloadable | wpsync-webspark.php:74-76 | a listed id that cannot be loaded stays in the list and is neither saved nor deleted |
| SyncProofs.SweepLeavesUnlisted | wpsync-webspark.php:73 | products that are not listed are unchanged, unsaved and undeleted |
| SyncProofs.SweepSurvivorsAreIndexed | wpsync-webspark.php:73-124 | after the first loop, every listed product still in the catalog has a SKU that some record carries |
| SyncProofs.SurvivorsAgree | wpsync-webspark.php:79-81 | which ids survive depends only on whether each is loadable and on its SKU |
| SyncProofs.StepKept | wpsync-webspark.php:79-81 | one iteration appends its id to the list unless it deletes the product |
| SyncProofs.SweepKeptIsSurvivors | wpsync-webspark.php:73-126 | the remaining id list is the listed ids minus the deleted ones, in order |
| SyncProofs.KeptAfterStep | wpsync-webspark.php:73-126 | the inductive step of SweepKeptIsSurvivors, from what the first iteration left |
| SyncProofs.SweepCount | wpsync-webspark.php:126 | the count the cap is computed from is the number of listed ids that are unloadable or whose SKU is indexed |
| SyncProofs.SweepCreatesNothing | wpsync-webspark.php:73-124 | the first loop creates no product, hands out no id, and adds no product key |
| SyncProofs.NewSkusAreNew | wpsync-webspark.php:134-142 | the SKUs the second loop would create are accepted by `set_sku`, new to the catalog, carried by some record, and pairwise distinct, so a duplicate SKU is created at most once |
| SyncProofs.HasSkuIsSkus | wpsync-webspark.php:134 | `wc_get_product_id_by_sku` finds a product iff the SKU is in the catalog's SKU set |
| SyncProofs.CreateStepFacts | wpsync-webspark.php:136-174 | a creation uses a fresh id, keeps every existing product, stores `CreatedProduct` of its record under the new id, adds exactly its SKU, and appends its creation to the journal |
| SyncProofs.CreateStepSkus | wpsync-webspark.php:136-174 | a creation keeps the catalog fresh, adds exactly its SKU, and adds exactly one creation to the journal |
| SyncProofs.InsertCreatesFirstNewSkus | wpsync-webspark.php:129-182 | the second loop creates exactly the first `difference` new, accepted SKUs, in snapshot order |
| SyncProofs.InsertCreatesHead | wpsync-webspark.php:134-181 | when the first record is created and more creations are allowed, the rest of the walk creates the next new SKUs |
| SyncProofs.InsertCreatesAfter | wpsync-webspark.php:133-182 | the walk over the remaining records, after one creation, extends the created SKUs with that SKU and the next new ones |
| SyncProofs.InsertCreatesLast | wpsync-webspark.php:176-180 | when the first record uses up the last allowed creation, the walk creates exactly that SKU and stops |
| SyncProofs.FirstCarrierShift | wpsync-webspark.php:133-135 | a first occurrence in the rest of the snapshot is a first occurrence in the whole snapshot when the first record carries another SKU |
| SyncProofs.InsertAddsCreated | wpsync-webspark.php:133-182 | the second loop adds one product per SKU it creates, so the product count grows by the number of creations, and the catalog's SKUs grow by exactly the created SKUs |
| SyncProofs.AddsAfterCreate | wpsync-webspark.php:136-181 | the inductive step of InsertAddsCreated, over one creation |
| SyncProofs.InsertNewProducts | wpsync-webspark.php:133-182 | every product the second loop adds carries an accepted SKU the catalog lacked, and equals `CreatedProduct` of the first record carrying that SKU: its name, description, price, stock and thumbnail id |
| SyncProofs.AddsAfterSkip | wpsync-webspark.php:134-142 | the inductive step of InsertNewProducts over a record that creates nothing |
| SyncProofs.AddsAfterCreateStep | wpsync-webspark.php:136-181 | the inductive step of InsertNewProducts over a record that creates a product |
| SyncProofs.InsertAddsFirstNewSkus | wpsync-webspark.php:129-182 | with room for `difference` products, the second loop adds exactly one product for each of the first `difference` new SKUs, and each is the product made from the first record carrying its SKU |
| SyncProofs.InsertKeepsExisting | wpsync-webspark.php:133-182 | the second loop neither deletes nor alters an existing product, and every product it adds has a fresh id |
| SyncProofs.RunDeletesAbsent | wpsync-webspark.php:62-184 | after a pass over a non-empty snapshot, no listed product whose SKU the snapshot lacks remains |
| SyncProofs.RunRespectsShopVolume | wpsync-webspark.php:126-183 | with C surviving ids, a pass creates nothing when C >= 2000. Otherwise it creates exactly the first `2000 - C` new SKUs in snapshot order, and never more than `2000 - C` SKUs. Over a non-empty snapshot the catalog grows by at most `2000 - C` products |
| SyncProofs.AddsAfterSweep | wpsync-webspark.php:126-183 | the products, SKUs and product count the second loop adds to what the first loop left, given the surviving count |
| SyncProofs.RunGrowsAtMost | wpsync-webspark.php:126-183 | over a non-empty snapshot, a pass adds at most `2000 - C` products to what the first loop left, and none when C >= 2000 |
| SyncProofs.RunAddsProducts | wpsync-webspark.php:62-184 | over a non-empty snapshot, a pass adds to what the first loop left one product per SKU among the first `2000 - C` new SKUs (none when C >= 2000); the catalog's SKUs grow by exactly those; each added product is the one made from the first record carrying its SKU |
| SyncProofs.SweepKeepsIndexed | wpsync-webspark.php:73-124 | a product whose SKU the snapshot carries is still in the catalog after the first loop, with the same SKU |
| SyncProofs.RunKeepsIndexed | wpsync-webspark.php:62-184 | a product whose SKU the snapshot carries is still in the catalog after a pass over that snapshot, with the same SKU |
| SyncProofs.RunLeavesIndexed | wpsync-webspark.php:62-184 | after a pass, every product that was listed or that the pass created carries a SKU of the snapshot |
| SyncProofs.SecondPassKeeps | wpsync-webspark.php:62-184 | a second pass over the same snapshot deletes no product that the first pass updated or created |
| SyncProofs.SecondPassCreatesNoneAgain | wpsync-webspark.php:133-182 | a second pass over the same snapshot creates no product whose SKU a product created by the first pass carries |
| SyncProofs.RefreshSettles | wpsync-webspark.php:86-119 | applying the same record a second time writes nothing except possibly a re-sideloaded image; if no image is written, the product is unchanged |

## Left out

- The fetch (lines 27-60) is not modelled: cURL, the retry loop, `ini_set`, the JSON decoding and the status check. The pass starts from the decoded record list. The only part of the fetch kept is that an empty list changes nothing (line 62).
- The cron registration and scheduling is not modelled; it is WordPress wiring.
- `floatval`, `set_sku`'s validation, `get_attached_file`/`basename`, and `media_sideload_image` with `get_post_thumbnail_id` are functions in `Records.Oracles`. The model does not interpret them.
- Records.Oracles.sideload: it may return any id for a path and a product id. In WordPress core, `media_sideload_image` attaches the file but does not set the post's thumbnail. So `get_post_thumbnail_id` at lines 111 and 169 gives the product's stored thumbnail: its current image for a matched product, and 0 for a product just created. "The image changes when the sideload succeeds" means the stored image id is set to that value. It does not mean the product now shows the new picture.
- SkuIndex.InArrayIffPresent / SkuIndex.ArraySearch: SKUs are matched by exact equality, while `in_array` (line 79) and `array_search` (line 83) compare loosely. A catalog SKU "00123" and a record SKU "123" (or the JSON number 123) match in PHP, so the product is kept and updated; the model deletes it.
- Sync.RefreshWrites: the `!=` comparisons are PHP loose comparisons (a string price against a float, a string stock figure against an integer). The model compares the values for equality.
- Records.Record: `in_stock` is modelled as an integer, with the `(int)` cast at lines 118 and 159 already applied.
- `wc_get_products` is not modelled. Its id list is a parameter of `Sync.Catalog.Reconcile`. The proofs about it assume the ids are distinct.
- Sync.Store: attachment ids and product ids are separate number spaces in the model. The sideload oracle picks attachment ids, and products get consecutive ids from a counter.
- Deleting a listed product and the `unset` on the id list are modelled as dropping the id from the list that is counted. The list's keys are not modelled.
- ImageFile.Lower: `stripos` is modelled with ASCII case folding only.
- Other product types, variations, and WooCommerce's own hooks on `save`/`delete` are not modelled. A product is one record of the fields the pass reads or writes.

# Smart Wardrobe: a verified model of the app's core logic

Smart Wardrobe is a client-side app. It keeps a closet of garment photos,
tags each photo, asks a language model for outfit advice, and composes a
flat-lay picture of the suggested top and bottom. This project models the
parts of the app that are plain computation and proves properties about
them. Each part is modelled with immutable datatypes and pure functions,
plus a few methods with loops:

- **Garment photos** (`image_bounds.dfy`, module `ImageBounds`). A photo is a
  flat RGBA byte buffer. The model covers the blank-pixel test, the
  content-bounds scan with its whole-image fallback and its two bounded
  refinement passes, and the crop to a box.
- **Flat-lay layout** (`layout.dfy`, module `FlatLay`). This is the
  arithmetic of the local composition: one common display width,
  aspect-preserving heights, a joint scale-down to a 700-unit height cap, the
  canvas height, and the centred, gap-free stacking. The model also covers
  the composition step that ties cropping and layout together.
- **Retry policy** (`retry.dfy`, module `Retry`). `callWithRetry` is modelled
  as a pure function over the outcome of each call of the wrapped operation.
- **JSON cleaning** (`json_clean.dfy`, module `JsonClean`). The model removes
  the markdown fences from a model reply, then trims it.
- **Application state** (`app.dfy`, module `App`). This covers the handlers
  that add and delete closet items and saved outfits, the initial load, and
  the persistence effects that are gated by the `loading` flag.
- **Storage** (`storage.dfy`, module `Storage`). Each
  IndexedDB object store is a map from `id` to record. A save is
  clear-then-put-all, the profile lives under the key `main`, history is read
  back newest first, and failures fall back to defaults.
- **Screens**:
  - `add_item.dfy`, module `AddItem`: category inference from the tags, the
    item record built on save, and the soft-fail check after background
    removal.
  - `wardrobe_view.dfy`, module `WardrobeView`: the category filter and the
    caption fallbacks.
  - `stylist_view.dfy`, module `StylistView`: the advice guards, the split
    into tops and bottoms, the id lookup, the picture source, and the saved
    outfit record.
- **Support modules**:
  - `text.dfy`, module `Text`: JavaScript string operations with their
    JavaScript meaning.
  - `seqs.dfy`, module `Seqs`: `filter` on sequences, and the sub-sequence
    relation.
  - `types.dfy`, module `Types`: the records of `types.ts`.
  - `wrappers.dfy`, module `Wrappers`: `Option`.

Parameters stand in for things outside the model:
- Calls to the language model, the background remover, the clock and storage
  access. Their outcomes are parameters: the reply or the error, the id and
  timestamp, the order in which `getAll` lists a store, and whether the
  database opens and the request succeeds.
- Whether a canvas 2-D context exists.

## Notes on the code as written

- `getImageBounds` falls back to the whole image when `minX >= maxX ||
  minY >= maxY`. That covers an image with no content. It also covers content
  confined to one column or one row, which includes a single pixel.
  `ImageBounds.Degenerate` names all three cases, and
  `ImageBounds.GetImageBounds` models the code as written. The comment above
  the test says the fallback is meant only for an image without content; see
  "Findings". `FlatLay.GenerateFlatLay` composes with the detector as
  written; `FlatLay.GenerateFlatLayIntended` is the same composition with
  the corrected detector.
- The refinement passes of `getImageBounds` always stop at the coarse `minY`
  and `maxY`. The result is therefore always the tight box
  (`ImageBounds.RefineTop`, `ImageBounds.RefineBottom`).
- `callWithRetry` retries only on an error whose `status` is 429 or 503. The
  HTTP helpers throw a plain `Error` without a `status`, so in practice no
  call is retried. The model keeps the status abstract, which covers both.
- `getWardrobe` rejects its promise when the `getAll` request fails. That
  rejection happens outside its `try`, so the `Promise.all` of the initial
  load rejects, and none of the loaded values is applied, not even a profile
  that loaded fine. `getProfile` and `getHistory` settle every request
  outcome with a value, so a failed open or a failed request never makes
  them reject.

## Model

| member | source | states |
|---|---|---|
| ImageBounds.IsBlankPixel | services/geminiService.ts:445-451 | a pixel is blank exactly when its alpha is below 10 or all of r, g, b exceed 250 |
| ImageBounds.ScanRow | services/geminiService.ts:476-490 | one row of the coarse scan folds every content pixel of the row into the min/max trackers, which only ever move outward, keeping the scan invariant |
| ImageBounds.CoarseMeaning | services/geminiService.ts:493-496 | after the full scan, the fallback test `minX >= maxX or minY >= maxY` holds exactly for images with no content, one content column or one content row; an image without content leaves the trackers at their start values; otherwise the trackers span the tight box |
| ImageBounds.CoarseScan | services/geminiService.ts:469-496 | the row-major scan over every pixel: the fallback test is true iff the image is degenerate, the trackers stay at their start values iff there is no content, and otherwise they are the tight bounding box of the content |
| ImageBounds.RowHasContent | services/geminiService.ts:502-509 | the inner refinement loop reports true iff the row holds a non-blank pixel |
| ImageBounds.RefineTop | services/geminiService.ts:499-514 | the downward refinement pass, bounded by `minY + 100`, always ends with `actualMinY == minY` |
| ImageBounds.RefineBottom | services/geminiService.ts:516-531 | the upward refinement pass, bounded by `maxY - 100`, always ends with `actualMaxY == maxY` |
| ImageBounds.RowContentInside | services/geminiService.ts:498-531 | every row with content lies between the top and bottom rows of the tight box, which is why neither refinement pass moves |
| ImageBounds.Refine | services/geminiService.ts:498-539 | started from the coarse tight box, the two refinement passes and the final box return that box unchanged |
| ImageBounds.GetImageBounds | services/geminiService.ts:458-540 | as written: without a 2-D context the whole image; with one, an image of zero width or height makes `getImageData` throw; otherwise the box lies in the image, is the whole image for a degenerate image, and else holds every content pixel, has content on each edge, and is at least 2 x 2 |
| ImageBounds.GetImageBoundsIntended | services/geminiService.ts:458-540 | corrected fallback, everything else as written: the same throw for a zero-size image; the whole image without a context or without content; for any image with content, the tight box, even one pixel wide or tall |
| ImageBounds.TightBoxUnique | services/geminiService.ts:533-539 | the tight box is unique, because content touching each edge pins all four edges |
| ImageBounds.NarrowPhotoIsDegenerate | services/geminiService.ts:494-496 | a 2 x 1 photo with one black pixel has a 1 x 1 tight box but counts as degenerate, so the fallback returns the full 2 x 1 image |
| ImageBounds.NarrowPhotoBounds | services/geminiService.ts:494-496 | on that photo the detector as written returns the 2 x 1 image, and the corrected one returns the 1 x 1 box |
| ImageBounds.CropImageToBounds | services/geminiService.ts:545-557 | the crop is exactly box-sized and its pixel (i, j) is source pixel (x + i, y + j); without a context it is a box-sized, all-transparent canvas |
| ImageBounds.BoxRowsAt | services/geminiService.ts:552-556 | byte k of row j of the copied rows is byte k of that row of the source, read at its own row-major offset |
| ImageBounds.CropFullIsIdentity | services/geminiService.ts:545-557 | cropping an image to its full extent returns the same image |
| FlatLay.TargetWidth | services/geminiService.ts:614-625 | the common display width is at most 760 and at most either crop's width, and equals one of the three |
| FlatLay.DisplayHeightRatio | services/geminiService.ts:617-632 | the height shown for a crop at a given width keeps the crop's width-to-height ratio |
| FlatLay.ScaleFactor | services/geminiService.ts:635-638 | the factor is 1 when the stack fits 700, and otherwise makes the stack exactly 700 tall; it lies in (0, 1] |
| FlatLay.ScaleStack | services/geminiService.ts:634-643 | scaling keeps both widths equal, grows nothing, keeps the stack within 700, leaves a fitting stack unchanged and makes an oversize one exactly 700 |
| FlatLay.Centred | services/geminiService.ts:667-671 | `x = padding + (availableWidth - w) / 2` centres the garment on the 800-wide canvas inside the side padding |
| FlatLay.ComputeLayout | services/geminiService.ts:612-671 | both garments share one width within the target, heights fit the cap, the canvas is padding + heights + padding with a whole-number attribute, the top sits at y = 20, the bottom directly below it, and both are centred |
| FlatLay.LayoutIsUniformScale | services/geminiService.ts:636-643 | all four drawn dimensions are the unscaled display sizes times one common factor |
| FlatLay.LayoutKeepsAspectRatios | services/geminiService.ts:617-643 | each garment is drawn with exactly its crop's aspect ratio |
| FlatLay.ScaledLayoutKeepsRatios | services/geminiService.ts:639-642 | multiplying ratio-keeping display sizes by one factor keeps the ratios |
| FlatLay.WorkedExample | services/geminiService.ts:612-671 | a 400 x 300 top over a 500 x 1000 bottom is scaled by 7/11 onto a 740-tall canvas |
| FlatLay.ComposeCrops | services/geminiService.ts:606-671 | each photo is cropped to its box, and each garment is drawn with its box's aspect ratio in a stack within the height cap |
| FlatLay.GenerateFlatLay | services/geminiService.ts:583-711 | the promise rejects without a context, on a failed photo load, and on a zero-size photo, whose `getImageData` throws inside the `try`; otherwise each photo is cropped to the box `getImageBounds` finds as written (whole image when degenerate, else the tight box) and the crops are laid out |
| FlatLay.GenerateFlatLayIntended | services/geminiService.ts:583-711 | the same composition with the corrected detector: the whole image only for a photo without content, else the tight box |
| Retry.Attempt | services/geminiService.ts:29-39 | from a given call on: at most retries + 1 calls, all but the last threw 429 or 503, the last call's value or error is passed on, and the waits double |
| Retry.CallWithRetry | services/geminiService.ts:29-39 | at most retries + 1 calls; every call but the last threw a 429 or 503; the last outcome is returned or rethrown unchanged; a rethrown error is non-transient unless the retries ran out; wait k is baseDelay * 2^k |
| Retry.DefaultPolicy | services/geminiService.ts:29 | with the defaults (1 retry, 2000 ms) there is a second call exactly when the first threw 429 or 503, after a single 2000 ms wait |
| Text.Trim | services/geminiService.ts:195 | `trim` returns the piece of the input between whitespace-only ends, and the result neither starts nor ends with whitespace |
| Text.TrimEmptyIff | views/StylistView.tsx:34 | a string trims to the empty string exactly when it is all whitespace |
| Text.TrimIdempotent | services/geminiService.ts:195 | trimming twice equals trimming once |
| Text.ContainsIff | views/AddItemView.tsx:55 | `includes` is true exactly when some window of the text equals the pattern |
| Text.ToLower | views/AddItemView.tsx:50 | lower-casing keeps the length and maps every char through the ASCII lower-case map |
| Text.RemoveAllAbsent | services/geminiService.ts:195 | a global replace of a pattern that does not occur leaves the text unchanged |
| Text.RemoveAllLeading | services/geminiService.ts:195 | an occurrence at the start of the text is removed and the scan resumes after it |
| Text.RemoveAllKeepsPiece | services/geminiService.ts:195 | text without the pattern's first char passes a global replace unchanged, whatever follows it |
| Text.OrElse | views/WardrobeView.tsx:49 | `a || b` gives a when a is a non-empty string, and b otherwise |
| Text.JoinEmptyIff | views/WardrobeView.tsx:52 | with a non-empty separator, a join is empty exactly when there is nothing to join or a single empty string |
| JsonClean.CleanJsonText | services/geminiService.ts:194-196 | the text handed to the JSON parser contains no "```", neither starts nor ends with whitespace, and is no longer than the reply |
| JsonClean.RemoveFencesIsFenceFree | services/geminiService.ts:195 | removing every "```" left to right leaves no "```", even where removals bring backticks together |
| JsonClean.FencedReplyIsUnwrapped | services/geminiService.ts:194-196 | a "```json" ... "```" block with backtick-free text around it reaches the parser as that text with both fences cut out, trimmed, unless the text after the block starts with "json" |
| JsonClean.FencedBlockIsUnwrapped | services/geminiService.ts:194-196 | a bare "```json" ... "```" block reaches the parser as its trimmed content |
| JsonClean.UnfencedIsOnlyTrimmed | services/geminiService.ts:195 | a reply without fences is only trimmed |
| JsonClean.CleanIdempotent | services/geminiService.ts:195 | cleaning an already cleaned text changes nothing |
| Seqs.Keep | App.tsx:71 | `filter`: every kept element passes, each passing element is kept as often as it occurs, nothing else is kept, and the order is the original one |
| Seqs.KeepAll | App.tsx:71 | a filter that every element passes returns the sequence unchanged |
| Seqs.KeepIdempotent | App.tsx:80 | filtering twice by the same test is filtering once |
| App.AddItem | App.tsx:64-66 | the new closet is the item followed by the old closet; nothing else in the modelled state changes (the switch to the closet view is not modelled) |
| App.DeleteItem | App.tsx:69-72 | on confirmation, exactly the items with another id remain, in order and with multiplicity; without confirmation nothing changes |
| App.SaveToHistory | App.tsx:75-77 | the new history is the outfit followed by the old history; nothing else changes |
| App.DeleteHistory | App.tsx:79-81 | exactly the outfits with another id remain, in order and with multiplicity |
| App.DeleteItemIdempotent | App.tsx:71 | deleting an item id twice is deleting it once |
| App.DeleteAbsentItem | App.tsx:71 | deleting an id no item has changes nothing |
| App.DeleteUndoesAdd | App.tsx:64-72 | adding an item under a fresh id and deleting that id restores the state |
| App.DeleteHistoryIdempotent | App.tsx:80 | deleting an outfit id twice is deleting it once |
| App.DeleteAbsentOutfit | App.tsx:80 | deleting an id no outfit has changes nothing |
| App.DeleteUndoesSave | App.tsx:75-81 | saving an outfit under a fresh id and deleting that id restores the state |
| App.Effects | App.tsx:52-62 | while loading no save is issued; when loading ends all three stores are saved; afterwards a store is saved exactly when its slice of state changed |
| App.NothingSavedWhileLoading | App.tsx:52-62 | any run of renders in which loading stays true issues no save at all |
| App.InitialLoad | App.tsx:28-47 | loading always ends; a rejected wardrobe read keeps every default; otherwise the profile is the stored one or the default, the history is the stored outfits newest first, and the closet is the stored items, or empty when the database does not open |
| App.LoadIsWrittenBack | App.tsx:37-62 | when loading ends, the three effects fire and write back what was just loaded, so every store keeps exactly its keys |
| Storage.PutAll | services/storage.ts:59-61 | putting records one by one stores each under its key, with the last record for a key winning, and leaves other keys untouched |
| Storage.Replace | services/storage.ts:57-61 | clear-then-put stores exactly the given keys, each under its own id, with the last record for a key winning |
| Storage.SaveWardrobe | services/storage.ts:39-66 | a completed save leaves exactly the given items keyed by id; a failed open or transaction changes nothing; other stores are never touched |
| Storage.SaveHistory | services/storage.ts:129-147 | the same as `SaveWardrobe`, for the history store |
| Storage.SaveForgetsEarlierRecords | services/storage.ts:57 | the store after a completed save does not depend on what it held before |
| Storage.SavesKeepKeyedById | services/storage.ts:24-32 | every save keeps each record under its own `id`, as the stores' key path requires |
| Storage.SaveProfile | services/storage.ts:89-104 | a completed save puts the profile under `main` and leaves every other key and store alone; a failure changes nothing |
| Storage.GetProfile | services/storage.ts:106-126 | the stored profile without its id, or the default when there is no `main` record, the request fails, or the database does not open |
| Storage.ProfileRoundTrip | services/storage.ts:99-116 | a saved profile reads back unchanged, whatever the default |
| Storage.FreshProfileIsDefault | services/storage.ts:117-124 | a store never written reads as the default, whatever the access outcome |
| Storage.GetAll | services/storage.ts:74-76 | `getAll` returns every record of the store once, in the given order of its keys |
| Storage.GetWardrobe | services/storage.ts:68-86 | success returns every stored item once; a database that does not open gives `[]`; a failed request rejects the promise |
| Storage.InsertByTime | services/storage.ts:158 | inserting into a newest-first list keeps it newest first and adds exactly the one record |
| Storage.SortNewestFirst | services/storage.ts:158 | sorting by descending timestamp gives a permutation ordered by non-increasing timestamp |
| Storage.GetHistory | services/storage.ts:149-166 | success returns a newest-first permutation of the stored outfits; any failure gives `[]` |
| Storage.HistoryRoundTrip | services/storage.ts:129-166 | a history with distinct ids reads back as the same outfits, newest first |
| Storage.WardrobeRoundTrip | services/storage.ts:39-86 | a closet with distinct ids reads back as the same items |
| AddItem.AnyKeywordIff | views/AddItemView.tsx:55 | `keywords.some(k => text.includes(k))` is true exactly when some keyword occurs somewhere in the text |
| AddItem.InferCategory | views/AddItemView.tsx:45-60 | an explicit BOTTOM or TOP tag wins, and inference never yields SHOES |
| AddItem.InferFromType | views/AddItemView.tsx:49-59 | without an explicit tag, the result is BOTTOM exactly when one of the 11 keywords occurs in the lower-cased type |
| AddItem.MissingTypeIsTop | views/AddItemView.tsx:50-58 | a missing type reads as "" and gives TOP, even under a SHOES tag |
| AddItem.CaseInsensitive | views/AddItemView.tsx:50 | lower-casing the type first does not change the category |
| AddItem.SlimJeansAreBottoms | views/AddItemView.tsx:50-56 | "Slim JEANS" is a bottom: the match is case-insensitive and by substring |
| AddItem.Analyze | views/AddItemView.tsx:38-67 | a reply sets the inferred category and clears the error; a failure keeps the current category and sets the manual-selection error |
| AddItem.SaveItem | views/AddItemView.tsx:92-122 | no item without an image; otherwise the item carries the image, the chosen category, the clock readings, and the fresh tags or the defaults Unknown / Clothing / Casual / All |
| AddItem.RemoveBackground | views/AddItemView.tsx:69-90 | the image changes exactly when the remover returns a different string, which also marks the background removed; an identical string only sets the offline warning; an error sets the other warning |
| AddItem.SoftFailureIsStable | views/AddItemView.tsx:78-82 | after a soft failure the image and flag stay as they were, and repeating it changes nothing |
| WardrobeView.FilteredItems | views/WardrobeView.tsx:14 | ALL gives the list unchanged; a category gives exactly its items, in order and with multiplicity, as a sub-sequence |
| WardrobeView.FilterMembership | views/WardrobeView.tsx:14 | an item shows under a category tab exactly when it is in the closet with that category |
| WardrobeView.Caption | views/WardrobeView.tsx:49 | the caption is the colour half, a space and the kind half; the colour half is the dominant colour when non-empty, else the colour, and the kind half is chosen the same way from sub-category and type |
| WardrobeView.CaptionHalvesIndependent | views/WardrobeView.tsx:49 | a non-empty specific tag hides its basic tag whatever the other half shows, and with neither specific tag the caption is colour and type |
| WardrobeView.StyleLine | views/WardrobeView.tsx:52 | the style line is never empty: the joined style tags when non-empty, else the style when non-empty, else "Casual" |
| WardrobeView.StyleTagsShown | views/WardrobeView.tsx:52 | style tags show when there are two or more, or one non-empty one; no tags or one empty tag fall back |
| WardrobeView.DefaultTagsCaption | views/WardrobeView.tsx:49-52 | an item saved with default tags is captioned "Unknown Clothing" / "Casual" |
| StylistView.TopsOf | views/StylistView.tsx:36 | exactly the TOP items, in order and with multiplicity |
| StylistView.BottomsOf | views/StylistView.tsx:37 | exactly the BOTTOM items, in order and with multiplicity |
| StylistView.NonEmptyIffPresent | views/StylistView.tsx:39 | a category's list is non-empty exactly when the closet holds an item of that category |
| StylistView.PlanAdvice | views/StylistView.tsx:33-42 | a blank occasion does nothing; advice is requested exactly when the occasion is not blank and the closet has a top and a bottom, and then with exactly the tops and bottoms |
| StylistView.ShoesAreNeverOffered | views/StylistView.tsx:36-37 | shoes are offered neither as tops nor as bottoms |
| StylistView.FindById | views/StylistView.tsx:58-59 | `find` by id gives nothing exactly when no element has the id, and otherwise the first element with it |
| StylistView.FoundItemMatches | views/StylistView.tsx:102-104 | a found item carries the id and is in the list |
| StylistView.PlanVisual | views/StylistView.tsx:58-76 | the picture is requested exactly when both ids are found, with the found items; otherwise the not-found error is set |
| StylistView.VisualUsesRecommendedGarments | views/StylistView.tsx:36-63 | a picture request uses a closet TOP and a closet BOTTOM with the recommended ids |
| StylistView.AttachVisual | views/StylistView.tsx:64-66 | a non-empty picture is attached to a present recommendation and nothing else changes; an empty one changes nothing |
| StylistView.VisualSrc | views/StylistView.tsx:113-115 | the source is always a data URI: a data URI is kept, anything else gets the JPEG base64 prefix |
| StylistView.VisualSrcIdempotent | views/StylistView.tsx:113-115 | normalising twice is normalising once |
| StylistView.PictureOf | views/StylistView.tsx:111-115 | an image is shown exactly for a non-empty picture, and its source is a data URI |
| StylistView.HandleSave | views/StylistView.tsx:87-100 | without a recommendation nothing happens; otherwise the saved outfit carries every recommendation field plus the new id and timestamp, the history tab opens and the form clears |
| StylistView.SavedOutfitRoundTrip | views/StylistView.tsx:89-93 | every saved outfit is what saving its own recommendation under its id and timestamp yields |

## Findings

| source | as written | input that shows it | evidently intended | confidence | as-written member | corrected member |
|---|---|---|---|---|---|---|
| services/geminiService.ts:493-496 | the whole image is returned when `minX >= maxX` or `minY >= maxY`, which also holds when the content is a single column, a single row or a lone pixel | a 2 x 1 image whose only non-blank pixel is (0, 0): the result is the 2 x 1 image, so the blank column is kept | the whole image only when no content pixel was found (`minX > maxX` or `minY > maxY`), as the comment on line 493 says; content one pixel wide is cropped to a 1-pixel-wide box | medium; not executed | ImageBounds.NarrowPhotoBounds | ImageBounds.GetImageBoundsIntended |

## Left out

- Network calls are not modelled: `callZenMux`, `callOpenRouter`, `callAPI`, the prompt templates, and `generateDigitalHuman`. Their results and errors are parameters.
- `JSON.parse` is not modelled: it is a foreign parser. The model ends at the cleaned text.
- Canvas drawing, shadows, fill colours and the `toDataURL` JPEG encoding are not modelled. Only the boxes, the crops and the numbers given to `drawImage` are.
- The asynchronous image-load join and the `setTimeout` waits are not modelled. Retry waits are recorded as numbers instead.
- `drawImageContain` is not modelled: it is never called.
- `services/imageProcessor.ts` (background removal) is not part of this model. Its outcome is a parameter of `AddItem.RemoveBackground`.
- `openDB`, real IndexedDB transactions and the console logging are not modelled. Stores are maps, and each call's success or failure is a parameter.
- Storage.GetAll: the order of the records is a parameter rather than IndexedDB's key order. Every property here holds for any order. Ids are `Date.now()` strings, so after a reload the closet comes back oldest first, although in memory it is newest first.
- React rendering, `alert` and `confirm`, and the `removingBg`/`analyzing`/`loading` spinner flags of the screens are not modelled. The user's answer to `confirm` is the `confirmed` parameter of `App.DeleteItem`.
- App.Effects: a slice counts as changed when its value changes. React compares by reference, so a handler that builds an equal new array, such as deleting an absent id, makes the source issue one more save of identical content. That extra save leaves storage as it was.
- `Date.now()` is not modelled: ids and timestamps are parameters.
- The profile screen, navigation bar, header and build configuration are not modelled: they have no logic worth proving.
- FlatLay.ComputeLayout: the arithmetic is exact (`real`), so IEEE-754 rounding of the source's doubles is not modelled.
- `db.transaction` throwing inside a storage promise's executor is not modelled. It would make even `getProfile` and `getHistory` reject. The modelled failures are a failed open and a failed request.
- Text.ToLower: only ASCII letters are lower-cased. Other Unicode case mappings are not modelled.
- Text.Trim: characters are code points. JavaScript strings are UTF-16 code units, which differs only for characters outside the Basic Multilingual Plane.
- Storage.SortNewestFirst: the order of outfits with equal timestamps is not claimed. `Array.prototype.sort` is stable, but the input order is already a parameter.
- The extra `category` field of the analysis reply is kept beside the tags (`AddItem.Analysis`) rather than inside them.

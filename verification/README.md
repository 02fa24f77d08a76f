# A verified model of the blog's content-manager core

This project models, in Dafny, the logic at the heart of the blog and its
content manager:

- **The image privacy pipeline** (`cms/server/utils/imageProcessor.js`):
  - the format whitelist;
  - reading EXIF metadata;
  - classifying metadata into privacy issues;
  - stripping metadata by re-encoding, in place through a `.tmp` file or to a separate output path;
  - the batch runner;
  - image information.
- **The post-collection helpers** (`src/data/post.ts`):
  - grouping posts by year;
  - the tag listings and tag counts;
  - Jaccard tag similarity;
  - related-post recommendation.
- **Content file helpers** (`cms/server/utils/fileUtils.js`):
  - choosing a fresh path for a new post, note or tag;
  - the recursive markdown listing.
- **The editor's autosave** (`cms/client/src/hooks/useAutoSave.js`):
  - the status text;
  - the status colour class;
  - the indicator's colour and icon (`cms/client/src/components/AutoSaveIndicator.jsx`);
  - the save state machine, driven one event at a time.
- **The Google Maps directive's checks** (`src/types/google-maps.ts`):
  - coordinate validation;
  - the two type guards.

Capabilities the code calls but that are not part of it are parameters:

- the EXIF parser;
- the image decoder and encoder;
- the file move and remove;
- `parseFloat`;
- the clock.

The filesystem is a value: a map from path to bytes, a set of existing paths, or a directory tree. Each operation returns the new state along with its result.

Modules, one file each:

| file | module | models |
|---|---|---|
| `wrappers.dfy` | `Wrappers` | `Option`, for `null`/`undefined` results |
| `text.dfy` | `Text` | `toLowerCase`, `String(n)`, `padStart`, set-size facts |
| `seqs.dfy` | `Seqs` | `Array.prototype.filter`, sequence prefixes |
| `node_path.dfy` | `NodePath` | `path.extname`, `path.basename`, `path.join` |
| `slug.dfy` | `Slugs` | the title-to-slug chain of `generateFilePath` |
| `storage.dfy` | `Storage` | the filesystem as a map from path to bytes |
| `image_format.dfy` | `ImageFormat` | `isSupportedImageFormat` and the encoder choice |
| `exif.dfy` | `Exif` | JavaScript truthiness, metadata records, `readImageExif` |
| `privacy.dfy` | `Privacy` | `checkImagePrivacy` |
| `image_processor.dfy` | `ImageProcessor` | `stripImageMetadata`, `batchStripImageMetadata`, `getImageInfo` |
| `stable_sort.dfy` | `StableSort` | `Array.prototype.sort` (stable, larger first) and `slice` |
| `posts.dfy` | `Posts` | the `post.ts` helpers |
| `content_paths.dfy` | `ContentPaths` | `generateFilePath`, `getAllMarkdownFiles` |
| `auto_save.dfy` | `AutoSave` | `getAutoSaveStatusText`, `getAutoSaveStatusClass`, the indicator's class and icon, the `useAutoSave` state machine |
| `google_maps.dfy` | `GoogleMaps` | `validateCoordinates`, `hasCoordinates`, `hasPlace` |

## Model

| member | source | states |
|---|---|---|
| ImageFormat.SupportedIffListedIgnoringCase | cms/server/utils/imageProcessor.js:9-19 | A path passes the format gate exactly when its extension spells one of `.jpg .jpeg .png .webp .tiff .tif` in any mix of ASCII case. |
| ImageFormat.LowerEqualsIffMatches | cms/server/utils/imageProcessor.js:17-18 | Full lower-casing maps a string onto a listed extension iff the string is that extension up to ASCII case. No other character, not even KELVIN SIGN or a dotted capital I, lower-cases onto one. |
| ImageFormat.SupportIsCaseInsensitive | cms/server/utils/imageProcessor.js:16-19 | Upper-casing the ASCII letters of a path never changes whether it is a supported image. |
| ImageFormat.SupportDependsOnExtension | cms/server/utils/imageProcessor.js:16-19 | For a plain file name (a dot-free stem plus one extension), support depends on the lower-cased extension alone. |
| ImageFormat.DotFileIsNotAnImage | cms/server/utils/imageProcessor.js:16-19 | Any dot file whose only dot leads its name (`.jpg`, `.png`, …) has no extension, so it is not an image. |
| ImageFormat.EncoderFor | cms/server/utils/imageProcessor.js:86-115 | An encoder is chosen exactly for the supported formats, so the branch chain has no gap. |
| NodePath.Extname | cms/server/utils/imageProcessor.js:17 | `path.extname` is empty or a dot followed by dot-free text. It is a suffix of the base name and has no separator. |
| NodePath.ExtnameOfJoin | cms/server/utils/fileUtils.js:19-24 | Joining a file name onto a directory keeps its extension, so filtering the full path equals filtering the entry name. |
| Exif.ReadImageExif | cms/server/utils/imageProcessor.js:26-38 | A record is returned iff the path is supported, the file exists and the parser returns an object. The record returned is the parser's. |
| Exif.UnsupportedReadsNothing | cms/server/utils/imageProcessor.js:28-30 | For an unsupported path, the result depends on neither the parser nor the files. |
| Privacy.Classify | cms/server/utils/imageProcessor.js:256-281 | Each of the five issues is reported iff one of its category's tags is truthy. Each issue is reported at most once, in category order. |
| Privacy.FourCategoriesWithoutGps | cms/server/utils/imageProcessor.js:258-281 | Camera, software, timestamp and author tags without GPS give exactly the four matching messages, one per category however many tags fire. |
| Privacy.Analyze | cms/server/utils/imageProcessor.js:249-287 | No record gives `{false, []}` with no key list. Otherwise the result has the record's issues and keys, and `hasSensitiveData` iff there is an issue. |
| Privacy.CheckImagePrivacy | cms/server/utils/imageProcessor.js:245-296 | Sensitive iff an issue is listed. Sensitive data is only reported when a record was read. |
| ImageProcessor.CompressionRatio | cms/server/utils/imageProcessor.js:141 | The ratio times the original size is the size difference times 100. It is negative iff the output grew, never above 100, and absent for an empty original. |
| ImageProcessor.Summarize | cms/server/utils/imageProcessor.js:149-154 | `hadExif` iff the input had a record, and the key counts are those of the two records. Removal is claimed exactly when there was a record and none is left. |
| ImageProcessor.CleanUpTemp | cms/server/utils/imageProcessor.js:163-173 | Failure cleanup touches only the temporary file, and only in place. That file is gone unless its removal throws. |
| ImageProcessor.StripImageMetadata | cms/server/utils/imageProcessor.js:50-182 | The result echoes the input and final output paths. No file outside the input, its `.tmp` file and the output path changes. An unsupported format fails with its extension before anything else is read. |
| ImageProcessor.Reencode | cms/server/utils/imageProcessor.js:75-121 | In place, every failure other than a failed move leaves the original intact and removes the temporary file (unless removal throws). |
| ImageProcessor.Publish | cms/server/utils/imageProcessor.js:123-161 | After a good encode, only the move can fail. On success the destination holds the encoder's bytes, no temporary file remains, and sizes, ratio and EXIF summary are those of the files before and after. The reported metadata is the width, height, format, channels and alpha flag of the decoded input. |
| ImageProcessor.Deliver | cms/server/utils/imageProcessor.js:121-126 | The bytes end up at the final path and the temporary file is moved away. Only an in-place move can fail. |
| ImageProcessor.EarlyFailureKeepsOriginal | cms/server/utils/imageProcessor.js:62-126 | In place, a failure before the move never damages the original, whichever step failed. |
| ImageProcessor.SuccessReport | cms/server/utils/imageProcessor.js:74-161 | A success report means the input existed and decoded, the destination holds exactly the encoder's output for it, and the figures describe the files before and after. The reported metadata is the summary of the input's decoded metadata. |
| ImageProcessor.TempIsNotAnImage | cms/server/utils/imageProcessor.js:58 | A `<input>.tmp` path never passes the format gate. |
| ImageProcessor.UnsupportedIgnoresCapabilities | cms/server/utils/imageProcessor.js:63-65 | The unsupported-format result is the same whatever the codec, parser, files or options. |
| ImageProcessor.UnsupportedRemovesStaleTemp | cms/server/utils/imageProcessor.js:163-173 | The catch block also runs for a rejected format, so an existing `<input>.tmp` is deleted. |
| ImageProcessor.FailedMoveCanLoseOriginal | cms/server/utils/imageProcessor.js:124-126 | A move with overwrite that fails after removing the destination leaves a failure report and no input file. |
| ImageProcessor.FailedWriteLeavesPartialOutput | cms/server/utils/imageProcessor.js:118-121 | With an explicit output path, a partial file from a failed write is not cleaned up. |
| ImageProcessor.UnverifiedRemovalForForeignOutput | cms/server/utils/imageProcessor.js:132-153 | The removal check reads the output through the format gate. An output path that is not an image therefore reports all metadata removed. |
| ImageProcessor.HealthyStrips | cms/server/utils/imageProcessor.js:50-161 | In place, with every capability succeeding, the call succeeds. |
| ImageProcessor.BatchStripImageMetadata | cms/server/utils/imageProcessor.js:190-207 | One result per path in input order. Each names its path as both input and output, since the batch strips in place. |
| ImageProcessor.BatchIsSequential | cms/server/utils/imageProcessor.js:193-196 | The i-th result is a single in-place call on the filesystem the first i files left behind. |
| ImageProcessor.BatchFrame | cms/server/utils/imageProcessor.js:190-207 | A batch changes only the files it names and their temporary files. |
| ImageProcessor.BatchStripsHealthyFile | cms/server/utils/imageProcessor.js:193-204 | A file whose capabilities all succeed is stripped wherever it sits in a batch of distinct paths. |
| ImageProcessor.BatchReportsCorruptFile | cms/server/utils/imageProcessor.js:193-204 | An undecodable image yields its own decode failure wherever it sits in the batch. |
| ImageProcessor.BatchIsolatesFailures | cms/server/utils/imageProcessor.js:193-204 | A corrupt image between two good ones fails alone, and both neighbours are stripped. |
| ImageProcessor.GetImageInfo | cms/server/utils/imageProcessor.js:214-238 | Information exists iff the path is supported, present and decodable. The size is the file's length, and `isAnimated` iff more than one page. |
| ImageProcessor.UnsupportedHasNoInfo | cms/server/utils/imageProcessor.js:216-218 | An unsupported path has no information, whatever the decoder. |
| Posts.GroupPostsByYear | src/data/post.ts:21-30 | The groups' keys are exactly the years the posts were published in. |
| Posts.GroupIsFilter | src/data/post.ts:21-30 | Each group is exactly its year's posts in list order and is never empty. |
| Posts.EveryPostGrouped | src/data/post.ts:22-28 | Every post is in the group of its own year. |
| Posts.AllTags | src/data/post.ts:35-37 | A tag is listed iff some post carries it. Duplicates are kept, so the listing is as long as all tag lists together. |
| Posts.AllTagsOfOne | src/data/post.ts:35-37 | One post's listing is its own tag list, order and repeats included. With `AllTagsAppend` this fixes the whole listing. |
| Posts.AllTagsAppend | src/data/post.ts:35-37 | The listing of concatenated post lists is the concatenation of their listings. |
| Posts.Dedup | src/data/post.ts:42-44 | `[...new Set(s)]` has no duplicates and the same members as `s`, in first-occurrence order. |
| Posts.UniqueTags | src/data/post.ts:42-44 | The unique tags are distinct and are exactly the tags some post carries, in order of first occurrence. |
| Posts.TallyCounts | src/data/post.ts:51-54 | The counting map lists each distinct tag once, in first-insertion order, with its number of occurrences. |
| Posts.TallyListing | src/data/post.ts:51-54 | The tally has distinct tags, covers every tag, counts occurrences exactly and keeps first-occurrence order. |
| Posts.PermutedListing | src/data/post.ts:55 | Sorting a tag listing keeps it a listing of the same tags and counts. |
| Posts.UniqueTagsWithCount | src/data/post.ts:49-56 | Each tag appears once with its exact count, every tag appears, and counts never increase. Tags with equal counts keep their first-occurrence order, as the stable sort does. |
| StableSort.SortDesc | src/data/post.ts:55 | The sort is a permutation ordered larger first. |
| StableSort.SortDescIsStable | src/data/post.ts:55 | Elements sharing a key keep their input order. |
| StableSort.JsSlice | src/data/post.ts:96 | `slice(0, end)` is a prefix of length `min(end, n)`. A negative `end` counts from the back. |
| StableSort.WithRankOfPrefix | src/data/post.ts:96 | Taking a prefix of a sequence takes a prefix of each rank's elements. |
| StableSort.TopKeepsTies | src/data/post.ts:94-96 | The slice of the stably sorted pool takes nothing more often than the pool holds it, and within each rank it takes that rank's first elements in pool order. |
| StableSort.TopOfSorted | src/data/post.ts:94-96 | The taken elements come from the pool sorted, none more often than in the pool. Nothing left out ranks above anything taken. Within each rank, the taken elements are the first ones of that rank in pool order. When fewer than `end` are taken, nothing was left out. |
| Posts.TagSimilarity | src/data/post.ts:61-76 | The score lies in [0, 1]. It is positive iff the posts share a tag, and 1 iff their tag sets are equal and non-empty. |
| Posts.SimilarityIsSymmetric | src/data/post.ts:61-76 | The Jaccard score does not depend on argument order. |
| Seqs.Filter | src/data/post.ts:87-90 | `filter` keeps each accepted element exactly as often as it occurs and drops every rejected one. |
| Seqs.FilterAppend | src/data/post.ts:87-90 | Filtering a concatenation filters each part, so the kept elements stay in input order. |
| Seqs.FilterOfFilter | src/data/post.ts:87-105 | Filtering the candidates by shared tags is filtering all posts once by "candidate and sharing a tag". |
| Posts.CandidatesMembers | src/data/post.ts:87-90 | The candidates are exactly the other posts with tags, none more often than listed. |
| Posts.SimilarMembers | src/data/post.ts:99-105 | The similar posts are exactly the candidates sharing a tag, none more often than listed. |
| Posts.MostRecent | src/data/post.ts:93-97 | At most `maxResults` candidates, newest first, none older than a candidate left out, none repeated beyond the input. Posts published at the same instant come in candidate order. All candidates are returned when there are fewer. |
| Posts.MostSimilar | src/data/post.ts:99-113 | At most `maxResults` tag-sharing candidates, ordered by similarity then recency, none repeated beyond the input. Full ties come in candidate order. None ranks below one left out, and all are returned when there are fewer. |
| Posts.RelatedPosts | src/data/post.ts:81-125 | When some other tagged post shares a tag, the most similar ones. Otherwise (an untagged current post, or no overlap) the most recent candidates. |
| Slugs.DropSpecialsKeepsWords | cms/server/utils/fileUtils.js:89 | Removing `[^\w\s-]` keeps every word character, in order. |
| Slugs.DropSpecialsEmpty | cms/server/utils/fileUtils.js:89 | Nothing is left iff no character was a word character, white space or `-`. |
| Slugs.CollapseKeepsPlain | cms/server/utils/fileUtils.js:90 | Apart from its dashes, the collapsed text is the input without white space or `-`. |
| Slugs.Slug | cms/server/utils/fileUtils.js:88-91 | A slug is made only of lower-case ASCII letters, digits, `_` and `-`. Its characters other than `-` are exactly the word characters of the lower-cased title, in order. It is empty iff the lower-cased title has no word character, white space or `-`. A title that is already slug text is its own slug. |
| Slugs.SlugIsIdempotent | cms/server/utils/fileUtils.js:88-91 | Slugging a slug changes nothing. |
| Slugs.CollapseAppend | cms/server/utils/fileUtils.js:90 | Collapsing white space in two pieces in a row is collapsing each, the second starting inside a run iff the first ended in white space. |
| Slugs.CollapseRun | cms/server/utils/fileUtils.js:90 | A non-empty run of white space becomes one `-`, or nothing when it continues a run. |
| Slugs.SlugJoinsWords | cms/server/utils/fileUtils.js:88-91 | Two pieces of slug text separated by any non-empty run of white space slug to the two pieces joined by exactly one `-`. |
| ContentPaths.TwoDigitField | cms/server/utils/fileUtils.js:85-86 | A month or day is written as exactly two digits that read back as its value. |
| ContentPaths.SlugOrUntitled | cms/server/utils/fileUtils.js:88-95 | The name is the title's slug when that is non-empty, and otherwise `untitled-<now>`. Either way it is non-empty slug text. |
| ContentPaths.CandidateInjective | cms/server/utils/fileUtils.js:111-115 | Distinct attempts try distinct paths (`index.md`, `1.md`, … or `slug.md`, `slug-1.md`, …). |
| ContentPaths.FirstFree | cms/server/utils/fileUtils.js:139-143 | The `do … while (pathExists)` loop ends on the first attempt whose path does not exist, having found every earlier one taken. |
| ContentPaths.GenerateFilePath | cms/server/utils/fileUtils.js:83-156 | The path does not exist and is the first free candidate in its layout. A post or note gets `YYYY/MM/DD/index.md` iff that is free. |
| ContentPaths.GeneratedPathIsMarkdown | cms/server/utils/fileUtils.js:83-156 | Every generated path has the `.md` extension, which the listing accepts. |
| ContentPaths.MarkdownFilesIsFilteredWalk | cms/server/utils/fileUtils.js:18-27 | Filtering during the walk equals filtering the full depth-first walk by extension. |
| ContentPaths.GetAllMarkdownFiles | cms/server/utils/fileUtils.js:9-30 | A missing directory gives nothing. Otherwise the result is exactly the regular files with a `.md`/`.mdx` extension, in walk order. |
| AutoSave.ElapsedSeconds | cms/client/src/hooks/useAutoSave.js:25 | The elapsed whole seconds, rounded down, bracket the elapsed milliseconds. |
| AutoSave.StatusLabel | cms/client/src/hooks/useAutoSave.js:15-52 | The "saving" label appears iff the status is SAVING. Before any save only SAVING has text. "Just saved" iff success within 5 s. Seconds, minutes and hours labels carry values that bracket the elapsed time in the largest unit. ERROR and PENDING have their own texts. |
| AutoSave.GetAutoSaveStatusText | cms/client/src/hooks/useAutoSave.js:15-52 | The text is empty iff nothing was saved yet and the status is not SAVING. |
| AutoSave.RenderRoundTrip | cms/client/src/hooks/useAutoSave.js:18-50 | Every status text reads back as the label it renders, so no two states share a text. Elapsed times read back with their unit and value. |
| Text.ParseIntToString | cms/client/src/hooks/useAutoSave.js:34 | The decimal rendering of an integer, sign included, reads back as that integer. |
| AutoSave.FirstFailureIsSilent | cms/client/src/hooks/useAutoSave.js:17-22 | A failure before any successful save shows no text. |
| AutoSave.StatusTone | cms/client/src/hooks/useAutoSave.js:57-75 | The class is gray until something has been saved. After that it is blue iff SAVING, green iff SUCCESS, red iff ERROR and yellow iff PENDING. |
| AutoSave.ClassNamesDistinct | cms/client/src/hooks/useAutoSave.js:59-73 | The five class strings are pairwise distinct. |
| AutoSave.ToneMatchesLabel | cms/client/src/hooks/useAutoSave.js:15-75 | After a save, colour and text agree: blue with "saving", red with "failed", yellow with "waiting", green with a success by age. |
| AutoSave.Step | cms/client/src/hooks/useAutoSave.js:102-171 | Save time and saved data change only on completion. An edit marks pending iff enabled and the data differs from what was last saved. A save while one is in flight is skipped. A completion clears the flag and gives SUCCESS iff resolved, ERROR otherwise. The save time becomes the completion time whenever the data was stored, even if the callback threw. A completion with no save in flight changes nothing. |
| AutoSave.StepKeepsValid | cms/client/src/hooks/useAutoSave.js:95-171 | Each step keeps the state consistent: SAVING only while a save is in flight, SUCCESS only with a save time, a known status. |
| AutoSave.RunKeepsValid | cms/client/src/hooks/useAutoSave.js:95-171 | Every state reachable by a sequence of events is consistent. |
| AutoSave.SavedStaysSaved | cms/client/src/hooks/useAutoSave.js:116 | Once set, the save time is never cleared. |
| AutoSave.FailureKeepsDataDirty | cms/client/src/hooks/useAutoSave.js:126-133 | After a failed save the saved-data reference is unchanged, so the same data is pending again. |
| AutoSave.EditDuringSaveIsDropped | cms/client/src/hooks/useAutoSave.js:102-106 | A save requested during another is dropped. The first save's success reports SUCCESS though the newer data was never saved. |
| AutoSave.ThrowingCallbackKeepsDataDirty | cms/client/src/hooks/useAutoSave.js:114-133 | A success callback that throws leaves a save time, a "保存失败" text and the old saved-data reference, so the data is pending again on the next edit. |
| AutoSave.IndicatorIsAlwaysGray | cms/client/src/components/AutoSaveIndicator.jsx:22 | The indicator as written is gray for every status. |
| AutoSave.IndicatorClass | cms/client/src/components/AutoSaveIndicator.jsx:21-22 | With a save time passed through, saving is blue, success green, failure red and pending yellow. Without one, the indicator is gray whatever the status. |
| AutoSave.SuccessIconUnreachable | cms/client/src/components/AutoSaveIndicator.jsx:25-38 | As written, no status gets the success icon; a success shows the default save icon. |
| AutoSave.StatusIcon | cms/client/src/components/AutoSaveIndicator.jsx:25-38 | With the success case on SUCCESS, PENDING, SAVING, SUCCESS and ERROR each get their own icon, and no other status gets one of those four. |
| AutoSave.IconMatchesTone | cms/client/src/components/AutoSaveIndicator.jsx:21-38 | After a save, the icon and the colour name the same status. |
| GoogleMaps.ValidateCoordinates | src/types/google-maps.ts:184-214 | Valid iff both numbers are finite and within [-90, 90] and [-180, 180], inclusive; a valid result carries the parsed values. Each error message is given iff the checks before it passed and its own failed (NaN first, then latitude, then longitude). |
| GoogleMaps.CornersAreValid | src/types/google-maps.ts:195-213 | Coordinates exactly on the bounds are accepted. |
| GoogleMaps.InfinityIsOutOfRange | src/types/google-maps.ts:188-200 | An infinite latitude passes the NaN check but fails the range check. |
| GoogleMaps.GuardsCheckTypes | src/types/google-maps.ts:170-179 | `hasCoordinates` holds iff both fields are strings, so empty strings pass. `hasPlace` holds iff the place is a non-empty string. |

## Left out

- The EXIF parser, the image decoder and encoder, and the filesystem's move and remove are parameters (`Env`): what they compute is not modelled, only that they may fail. Directory creation (`ensureDir`) is part of the encoder's write.
- The per-format encoder settings (quality, progressive, mozjpeg, compression level, effort, LZW) are passed to the encoder unchanged. The model records which encoder is chosen, not what the settings do to the output.
- `compressionRatio` is kept as an exact real. Its `toFixed(2)` rendering, and the `"NaN"`/`"-Infinity"` strings an empty original would give, are not modelled (the ratio is `None` then).
- Console logging is left out: it has no effect on any result.
- A `stat` that throws is modelled as the input being missing. `stat`ing the output after a successful move always succeeds in the model.
- `path.join` is modelled for a directory and one separator-free component, without `..` or repeated-separator normalisation. `path.extname`/`basename` follow the POSIX rules.
- `readdir` of a path that exists but is not a directory is not modelled. The listing is either absent (`pathExists` false) or a tree of entries.
- Unicode lower-casing (`Text.ToLowerCase`) is exact only for its ASCII part. Other non-ASCII characters keep their case, which never changes whether an extension is listed; `LowerChar` documents why.
- `getFullYear`, `getMonth` and `getDate` in the local time zone are inputs (`Date.fullYear`, `LocalDate`). `Date.now()` and `new Date()` are parameters.
- Posts.TagSimilarity: computed on exact reals rather than IEEE doubles. The ordering of related posts by similarity could differ from the double-precision order only between scores that round to the same double.
- Posts.RelatedPosts: publish instants are integers (milliseconds). An invalid date (NaN time) is not modelled.
- The draft filtering and the content collection loading (`getAllPosts`, `getTagMeta`) happen outside these helpers and are not part of this model.
- The autosave hook's timers, its debounce delay and React's rendering are abstracted into a sequence of events:
  - an edit (data or enabled flag changed);
  - a save request (the timer firing, or `forceSave`);
  - a save completion.

  Events are taken one at a time; the clearing of an older timer is an edit followed by at most one save.
- The autosave data is modelled as its `JSON.stringify` form, and changes are compared on that string. Callback identity (the `useCallback` dependencies) is not modelled.
- The status constants' `IDLE` text branch (`default:` in `getAutoSaveStatusText`) is modelled, but the hook never sets IDLE after mount.
- GoogleMaps.ValidateCoordinates: `parseFloat` is a parameter returning NaN, ±Infinity or a finite number. Its prefix-parsing rules are not modelled.
- `readMarkdownFile`, `writeMarkdownFile` and `deleteFile` in the same file are thin filesystem wrappers, not part of this model.
- Exif.Record: a record is a list of name/value pairs and may repeat a name. `Get` returns the first value. The parser's objects have distinct keys, but the model does not require it, and key counts count repeats.
- The capabilities in `Env` are pure functions of their arguments. A real decoder or mover may behave differently as the filesystem changes, and `ImageProcessor.BatchKeepsLaterFilesHealthy` relies on their not doing so.
- Error messages are the `StripError` variants, not strings. An unsupported format carries its extension, as the message `Unsupported image format: <ext>` does.

Two behaviours of the code that are easy to miss, and that the model follows:

- the failure cleanup of `stripImageMetadata` also runs when the format gate rejects the input, so a stale `<input>.tmp` is deleted even then (`ImageProcessor.UnsupportedRemovesStaleTemp`);
- the success callback runs inside the `try`, so a throwing callback turns a completed save into an ERROR status with a save time (`AutoSave.ThrowingCallbackKeepsDataDirty`).

## Findings

| source | as written | input that shows it | evidently intended | confidence | as-written member | corrected member |
|---|---|---|---|---|---|---|
| cms/client/src/components/AutoSaveIndicator.jsx:22 | `getAutoSaveStatusClass(status)` is called without `lastSaved`, so the "never saved" branch is always taken | status `success` with any save time: the class is gray instead of green | pass `lastSaved` through, as the text call on line 21 does | not executed | AutoSave.IndicatorClassAsWritten (with AutoSave.IndicatorIsAlwaysGray) | AutoSave.IndicatorClass |
| cms/client/src/components/AutoSaveIndicator.jsx:31 | the success case compares with `AUTO_SAVE_STATUS.SAVED`, which the status table does not define, so it is `undefined` | status `success`: no case matches and the default save icon shows instead of the check mark | `case AUTO_SAVE_STATUS.SUCCESS:` | not executed | AutoSave.StatusIconAsWritten (with AutoSave.SuccessIconUnreachable) | AutoSave.StatusIcon |

# Verification of the HDFS gateway's listing engine and caches

A Dafny model of a read-only S3 gateway over HDFS: its `ListObjectsV2` engine, the
weighted TTL caches underneath, HEAD and GET over files that external writers change, and
the path, token and range arithmetic they rest on. `dafny verify dfyconfig.toml` checks
everything.

## How the model is built

- Keys and names are byte strings under lexicographic order (`ByteStrings.dfy`). What HDFS
  holds below the gateway's root is a finite `Namespace`: files, directories, and the
  directories whose listing fails, with the error. A directory is listed at `dir + "/"`,
  its output. `Sorting.dfy` holds the one sorted enumeration of a set and the contracts of
  the standard library's sort and partition point.
- The flat listing (`Merge.dfy`, `SortedListing.dfy`, `FlatListing.dfy`) is a class whose
  frontier is a set of cursors. The invariant `MergeOk` says that the items taken so far are
  an initial run of the wanted items (files to emit, directories to open) and that the
  frontier covers exactly the rest; the number of items left is the measure.
- The pages (`Pagination.dfy`, `Grouping.dfy`), the three listing modes (`ListObjects.dfy`)
  and a client that follows the tokens (`ClientWalk.dfy`, `Tokens.dfy`) are proved against
  one definition, `HasPage`: contents and common prefixes of the whole listing, past the
  marker, first `maxKeys` in order, with flag and token.
- `Cache.dfy` has the cache operations as functions on a recency-ordered sequence, and the
  class that performs them in place.
- HEAD and GET (`HdfsHistory.dfy`, `Gateway.dfy`) are a machine whose steps are one cache
  access, one RPC or one decision each. The gateway class runs these steps without
  interruption; `Interleaving.dfy` interleaves any number of requests with external writes,
  at any times; `BlockMapAge.dfy` says which versions such a run can serve;
  `SequentialRuns.dfy` serves requests one after the other. A path's history is the sequence
  of all its states (missing, failing, a directory, a file), the last one current.

Three findings, where code and comments disagree (the model follows the code):

- `src/s3/cache.rs:27-29` and `src/s3/mod.rs:343-344` say that a replaced object can never be
  served from the previous block map. For every configuration and history, some run serves
  an earlier version `v` under the headers of a later version `j` if and only if the block
  cache accepts entries, `v` can be opened, `j` repeats the length and modification time of
  `v` or of a version before it, and `v` is not empty unless `j` is (`StreamsEarlierIff`;
  `ReplacedFileIsServed` is the smallest example). So a gateway serves no content the file no
  longer has if and only if it caches no block maps or each such `v` has content the file
  still has from `j` on (`NeverOlderIff`); distinct lengths or modification times of all
  versions are enough (`DistinctStampsSuffice`).
- `src/core/path.rs:102-107` refuses the slash-less prefixes `.` and `..` because no key can
  start with those segments; keys such as `.hidden` start with those bytes. `list_start` is
  lossless for every other prefix and for no other reason lossy (`ListStartLosslessIff`,
  `DotPrefixLosesKeys`).
- `src/s3/sorted_listing.rs:247-252` says that `dir_children_all_before` is not monotone
  across sibling directories, `src/s3/sorted_listing.rs:441-442` that it is. Over the output
  order the directories are stored in, it is (`AllBeforeIsMonotone`).

## Model

| member | source | states |
|---|---|---|
| KeyOrder.CmpDirOutput | src/core/listing.rs:215-234 | decides the order of the string `dir + "/"` and `other` |
| KeyOrder.CmpDirKeys | src/core/listing.rs:243-262 | decides the order of the strings `a + "/"` and `b + "/"` |
| KeyOrder.CmpFileDir | src/core/listing.rs:265-267 | decides the order of a file key and the string `dir + "/"` |
| KeyOrder.DirOutputStartsWith | src/core/listing.rs:271-279 | decides whether the string `dir + "/"` starts with the prefix |
| KeyOrder.DirChildrenAllBefore | src/s3/sorted_listing.rs:253-271 | holds iff `dir + "/"` is below the marker and is no prefix of it |
| KeyOrder.AllBeforeIsExact | src/s3/sorted_listing.rs:237-246 | the predicate holds iff every string below the directory sorts before the marker |
| KeyOrder.AllBeforeIsMonotone | src/s3/sorted_listing.rs:434-443 | over output-ordered siblings the predicate is monotone |
| KeyOrder.StraddlerIsLast | src/s3/sorted_listing.rs:276-282 | no sibling sorts between a directory's output and a marker inside that directory |
| KeyOrder.StraddleTest | src/s3/sorted_listing.rs:286-291 | the byte-wise test of the code decides whether the marker lies below the directory |
| KeyOrder.DirsStartAfter | src/s3/sorted_listing.rs:283-296 | returns the exact partition point of `DirChildrenAllBefore`; only the directory there can have the marker inside it |
| Paths.NormalizeAbs | src/core/path.rs:172-193 | the loop with its stack computes the recursive definition of the normal form |
| Paths.NormalizeIdempotent | src/core/path.rs:158-193 | a normal form is its own normal form |
| Paths.NormalFormIsClean | src/core/path.rs:158-193 | a normal form keeps the leading slash and has no empty, `.` or `..` segment (for absolute paths and for relative ones) |
| Paths.NormalizeFailsIff | src/core/path.rs:178-183 | there is no normal form iff the path is absolute and some initial part of its segments has more `..` than names |
| Paths.UpCancels | src/core/path.rs:178-183 | `..` takes back the named segment right before it, in every context, and nothing else |
| Paths.EmptyAndDotVanish | src/core/path.rs:177 | empty and `.` segments mean nothing, wherever they stand |
| Paths.UpAtTheTop | src/core/path.rs:178-183 | with nothing to take back `..` is dropped from a relative path and fails an absolute one |
| Paths.NormalizeUp | src/core/path.rs:172-193 | `x/g/../r` and `x/r` have the same normal form |
| Paths.NormalizeSkips | src/core/path.rs:172-193 | so have `x/./r`, `x//r` and `x/r` |
| Paths.NormalizeRootIsValid | src/core/path.rs:149-156 | whatever is configured, the root is an absolute path in normal form |
| Paths.NormalizeRootIs | src/core/path.rs:149-156 | a valid root stays itself, its leading slash may be left out, and one that leaves the file system becomes `/` |
| Paths.KeyRoundTrip | src/core/path.rs:54-134 | a canonical key maps to the root joined with it, and back |
| Paths.PathRoundTrip | src/core/path.rs:54-134 | a path whose normal form lies strictly below the root maps to a canonical key, and back to the normal form |
| Paths.KeyPathContained | src/core/path.rs:71-84 | any key maps to nothing or to the root or a normalised path below it |
| Paths.KeyToPathIff | src/core/path.rs:54-84 | a key maps to exactly the normal form of root and key, if that is at or below the root |
| Paths.LeadingSlashes | src/core/path.rs:55-60 | leading slashes of a key mean nothing, and a key without anything else maps nowhere |
| Paths.KeyUp | src/core/path.rs:54-84 | the key `k/g/../r` maps where `k/r` does iff `k/r` is not slashes alone, which alone is refused |
| Paths.KeySkips | src/core/path.rs:54-84 | the key `k//r` maps where `k/r` does, and `k/./r` under the same condition |
| Paths.PathToKeyIff | src/core/path.rs:122-134 | a path has a key iff its normal form is the root or lies below it; exactly the root has the empty key |
| Paths.ListStartLosslessIff | src/core/path.rs:101-118 | every canonical key that starts with the prefix lies below the start directory (and nothing is refused that could match) iff the prefix is neither `.` nor `..` |
| Paths.DotPrefixLosesKeys | src/core/path.rs:104-107 | for those two prefixes a canonical key starts with the prefix and there is no start directory |
| Paths.ListStartContained | src/core/path.rs:101-118 | the start directory is always the root or below it, in normal form |
| Paths.ListStartIs | src/core/path.rs:101-118 | prefixes whose first segment is `.` or `..` have no start; others start where the part up to their last slash leads |
| Namespaces.AnswerUnique | src/s3/sorted_listing.rs:108-130 | two correct answers to listing one directory are equal, so a cached answer is the fresh one |
| Namespaces.SkippableIff | src/s3/error.rs:49-58 | an error is passed over iff the directory is gone or an RPC was refused with a class whose name ends in one of the five denials |
| DirLister.ListingFromStatuses | src/s3/sorted_listing.rs:135-166 | files of the addressable statuses in key order and directories in output order, each as often as it was given |
| DirLister.MappedAre | src/s3/sorted_listing.rs:135-166 | a listing holds an entry iff a status of that kind, length and time maps to that key below the root |
| DirLister.StatusesAreListed | src/s3/sorted_listing.rs:135-166 | over the statuses of a directory's children the result is that directory's listing in key space |
| DirLister.HdfsDirLister.ListDir | src/s3/sorted_listing.rs:108-130 | whatever the cache holds, and for all its limits and any clock, the answer is that of the namespace; a hit is refreshed, a fetched listing kept unless oversized |
| DirLister.StillRemembered | src/s3/sorted_listing.rs:118-127 | after any request every cached listing is still the namespace's answer, weighs its size and is not oversized |
| DirLister.ListingIsRemembered | src/s3/sorted_listing.rs:108-130 | a fetched listing that is not oversized answers until it expires; a hit or an oversized listing changes no answer |
| Merge.Cursor.Cmp | src/s3/sorted_listing.rs:222-235 | decides the order of the outputs of two cursors' next entries |
| Merge.StepKeepsMerge | src/s3/sorted_listing.rs:376-432 | taking the least item of the frontier keeps the invariant that what was taken is an initial run of what is wanted |
| Merge.NextRemaining | src/s3/sorted_listing.rs:376-432 | the items left get strictly fewer with each step of the loop |
| Merge.SkippedSubtree | src/s3/sorted_listing.rs:404-411 | nothing wanted lies below a directory that does not match the prefix, is wholly before the marker or cannot be listed |
| Merge.OpenReplaces | src/s3/sorted_listing.rs:415-467 | the cursors pushed for an opened directory cover every wanted item below it and nothing outside it |
| SortedListings.SortedListing.PushListing | src/s3/sorted_listing.rs:443-467 | pushes at most two cursors, positioned at the first file past the marker and the first directory that may reach past it |
| SortedListings.SortedListing.Descend | src/s3/sorted_listing.rs:399-431 | opens, skips or fails at one directory, recording exactly the opened paths, and keeps the merge |
| SortedListings.SortedListing.NextEntry | src/s3/sorted_listing.rs:360-432 | extends the run of items taken by skipped and opened directories and then by the emitted file or the fatal directory; nothing is left when nothing is returned |
| SortedListings.SortedListing.CollectPage | src/s3/sorted_listing.rs:477-493 | the page is the first `maxKeys` wanted keys, truncated iff there are more; an error iff a fatal directory sorts before the cut, and then the first one's; the list of requests is the start and exactly the wanted directories before the cut, each once, in order |
| FlatListing.WantedFilesAre | src/s3/sorted_listing.rs:339-432 | the wanted keys are the files that start with the prefix, exceed the marker and are not below a failing directory |
| FlatListing.WantedDirsAre | src/s3/sorted_listing.rs:298-304 | the wanted directories are those that match the prefix, may reach past the marker and are not below a failing directory |
| FlatListing.WithoutErrors | src/s3/sorted_listing.rs:339-432 | with every directory listable the keys are exactly the matching ones, and no page is an error |
| FlatListing.NothingWanted | src/s3/sorted_listing.rs:386-390 | when no key starts with the prefix nothing is emitted, wherever the walk starts |
| FlatListing.FailingSubtreesAreAbsent | src/s3/sorted_listing.rs:341-359 | the keys are those of the namespace with the failing subtrees deleted |
| Pagination.ListToContents | src/core/listing.rs:51-83 | contents are the matching keys without the delimiter after the prefix, in order given; common prefixes are what the others collapse to |
| Pagination.Paginate | src/core/listing.rs:126-212 | for any entries, the first `maxKeys` of all listed keys and common prefixes past the marker in weak order, with flag and token; for entries with distinct keys, the page of their contents and common prefixes |
| Pagination.CutIsPage | src/core/listing.rs:182-211 | of entries with distinct keys the cut is exactly the page of their contents and common prefixes |
| Pagination.PaginateSlash | src/core/listing.rs:297-384 | the page of the sorted children that match the prefix and exceed the marker |
| Pagination.EmitLeast | src/core/listing.rs:358-375 | moving the smaller of the two next outputs to the page keeps the merge of the two streams |
| Pagination.PageUnique | src/core/listing.rs:85-98 | contents and common prefixes determine the page, flag and token |
| Pagination.PrefixesAreNotContents | src/core/listing.rs:182-199 | no common prefix is also a content, so selecting by key keeps the two apart |
| Grouping.FastIsSimple | src/core/listing.rs:281-296 | on the sorted children of the prefix's directory the fast paginator's page is the general one's, for every prefix, marker and page size |
| Grouping.CollapsePast | src/s3/mod.rs:639-643 | a common prefix past the marker comes only from keys past the marker |
| Grouping.PushdownCommutes | src/s3/mod.rs:610-656 | dropping the keys up to the marker before grouping changes no content and no common prefix past it |
| Grouping.OneDirectoryIsSubtree | src/s3/mod.rs:547-603 | the one-directory listing for `/` selects what grouping every key of the subtree selects, plus one common prefix for each matching child directory without files |
| Grouping.GroupedIsBelowChild | src/s3/mod.rs:549-553 | a key with a slash after the prefix lies below a matching child directory |
| Grouping.BelowChildIsGrouped | src/s3/mod.rs:549-553 | what lies below a matching child directory collapses to its output |
| Grouping.OccursAtIff | src/core/listing.rs:72-74 | a delimiter occurs where the string is something before, the delimiter, and something after |
| Grouping.CommonPrefixesAre | src/core/listing.rs:60-77 | for every delimiter the common prefixes are the matching keys' parts up to and with its first occurrence after the prefix |
| Grouping.ContentKeysAre | src/core/listing.rs:60-77 | ... and the contents the matching keys in which it does not occur after the prefix |
| Grouping.WithoutDelimiter | src/s3/mod.rs:519-523 | with no delimiter or an empty one every matching key is a content and there is no common prefix |
| Grouping.AllPrefixesAre | src/core/listing.rs:139-165 | child directories add, for `/` only, what their outputs collapse to |
| Tokens.OctetsOfSextets | src/core/listing.rs:393-396 | unpacking inverts packing into groups of six bits (section 4 of RFC 4648) |
| Tokens.SextetsOfOctets | src/core/listing.rs:405-412 | packing inverts unpacking on every accepted group sequence |
| Tokens.DecodeCharsIff | src/core/listing.rs:405-412 | one alphabet's decoder accepts exactly that alphabet's encodings |
| Tokens.DecodeStandardIff | src/core/listing.rs:409 | the padded standard decoder accepts exactly the padded encodings |
| Tokens.FormsAgree | src/core/listing.rs:406-410 | a standard token that the URL-safe decoder reads as well means the same |
| Tokens.DecodeTokenIff | src/core/listing.rs:405-412 | a token decodes to a key iff it is the URL-safe or the padded standard encoding of that key and the key is UTF-8 (sections 5 and 4 of RFC 4648) |
| Tokens.CollapseIsValid | src/core/listing.rs:74 | a common prefix of UTF-8 strings is UTF-8, so its token decodes |
| Tokens.CharIs | src/core/listing.rs:393-412 | the two alphabets are those of tables 1 and 2 of RFC 4648 |
| Tokens.SextetsKeepBits | src/core/listing.rs:393-396 | the groups hold the bits of the bytes in order, most significant first, and as few zeros as fill the last group |
| Tokens.TokenIs | src/core/listing.rs:393-396 | a token is the URL-safe characters of those groups without padding, the older form the standard ones padded to a multiple of four |
| Tokens.ValidUtf8Iff | src/core/listing.rs:411 | a byte string is valid iff it is the encoding of a string of Unicode scalar values (section 3 of RFC 3629) |
| ListObjects.ListPage | src/s3/mod.rs:547-702 | in each mode the answer is an error exactly when the start or a fatal directory before the cut says so, and else the page of the reference listing |
| ListObjects.ListedUnique | src/s3/mod.rs:547-702 | a listing request has one answer, so it is the same with caches on as off, whatever they hold |
| ListObjects.ListSlash | src/s3/mod.rs:547-609 | the same for `/` |
| ListObjects.ListFlat | src/s3/mod.rs:663-702 | the same without a delimiter |
| ListObjects.ListGrouped | src/s3/mod.rs:610-662 | the same for any other delimiter |
| ListObjects.SlashIsReference | src/s3/mod.rs:547-553 | the page of the prefix's one directory is the page of the whole subtree's grouping |
| ListObjects.FlatIsReference | src/s3/mod.rs:663-702 | the merge's page is the page of the matching keys |
| ListObjects.GroupedIsReference | src/s3/mod.rs:610-662 | grouping what the merge found past the marker gives the page of grouping everything |
| ListObjects.StartOf | src/s3/mod.rs:673-677 | a listing starts at the prefix's own directory part, or nothing can match |
| ClientWalk.ListObjectsV2 | src/s3/mod.rs:507-713 | bucket, max-keys and token errors in that order, else the rendered page of the mode |
| ClientWalk.ResponseUnique | src/s3/mod.rs:507-713 | a request has one response, errors included |
| ClientWalk.AnswerIsReference | src/s3/mod.rs:538-713 | where the start is listable or missing and every other failing directory in reach is denied or vanished, the answer is the page of the reference listing of what can be seen, for every prefix but `.` and `..`, every marker and page size, in all three modes |
| ClientWalk.WithoutErrorsAllIsSeen | src/s3/mod.rs:538-713 | with every directory listable that is the whole namespace |
| ClientWalk.EverythingIs | src/s3/mod.rs:519-702 | the listing in plain terms, for every prefix and delimiter: files without the delimiter after the prefix, the others' parts up to and with it, and for `/` the directories right below |
| ClientWalk.FailuresAre | src/s3/mod.rs:547-702 | which failures fail a listing, and with which error: the start's own, unless nothing is there, and for a walk the first matching directory in reach that fails by neither denial nor deletion and has no more than the page's keys before it; with `/` no other |
| ClientWalk.ErrorsAre | src/s3/mod.rs:514-546 | which requests are refused: another bucket, else a negative page size, else a token that is neither form of a UTF-8 key |
| ClientWalk.DefaultsAre | src/s3/mod.rs:518-546 | what may be left out: empty prefix, 1000 keys, empty delimiter, and a token in place of the key to start after |
| ClientWalk.ResponseSays | src/s3/mod.rs:704-745 | a page holds, each in order, exactly the first of what is left past the marker, counts them, and has the flag and the token of its last output iff outputs are left |
| ClientWalk.CutContinues | src/s3/mod.rs:696-700 | the last output of a cut page parts exactly what was served from what is left |
| ClientWalk.PageOfWalk | src/s3/mod.rs:704-713 | a page serves the next outputs in order, and its token, encoded and decoded, resumes right after them |
| ClientWalk.ShownIsUtf8 | src/core/listing.rs:405-412 | every output a token can carry is UTF-8 |
| ClientWalk.Walk | src/s3/mod.rs:538-713 | a client that follows the tokens collects every output of what can be seen once, in strictly increasing order, in `max(1, ceil(n / maxKeys))` pages, denied and vanished directories included |
| Cache.TtlCache.Get | src/core/cache.rs:63-83 | returns the live value and makes it the most recent; drops an expired entry; the weight stays the sum |
| Cache.TtlCache.Insert | src/core/cache.rs:88-118 | stores an accepted value as the most recent entry, replacing the key's, and evicts; else changes nothing |
| Cache.TtlCache.EvictToBudget | src/core/cache.rs:112-117 | drops least recently used entries until the rest fits |
| Cache.TtlCache.Remove | src/core/cache.rs:121-130 | drops the key's entry and its weight |
| Cache.NeverWrapsIff | src/core/cache.rs:104-111 | the weight counter exceeds a `usize` in no state iff twice the budget fits, or the budget fits and the cache has one entry |
| Cache.WithoutWeighs | src/core/cache.rs:93-95 | popping a key takes out one entry and exactly its weight |
| Cache.FittingIsLongest | src/core/cache.rs:112-117 | the survivors of eviction are the longest most recently used run within both bounds |
| Cache.InsertSurvives | src/core/cache.rs:85-92 | an accepted insert is stored, first in recency |
| Cache.InsertIsFound | src/core/cache.rs:63-118 | ... and found until it is as old as the time to live, and not after |
| Cache.RunRefines | src/core/cache.rs:63-130 | after any run of operations keys are distinct, count and weight are within bounds, and every entry is the latest accepted insert of its key not removed since |
| Cache.HitIsLatest | src/core/cache.rs:63-83 | a hit returns that insert's value, strictly younger than the time to live |
| Cache.GetChangesNoAnswer | src/core/cache.rs:63-83 | asking for a key changes no later answer, for any key |
| Cache.InsertAnswers | src/core/cache.rs:85-118 | an insert is taken iff the cache is enabled and the weight within the budget; then the key has the value until it expires and others keep their answer or are evicted; else no answer changes |
| Cache.RemoveAnswers | src/core/cache.rs:121-130 | a removed key is missing, and no other answer changes |
| Cache.RunIsBounded | src/core/cache.rs:99-117 | after any run count and total weight are within their bounds |
| Cache.RunIsByLastUse | src/core/cache.rs:60-62 | after any run the entries stand in the order of their last hit or accepted insert, so eviction takes the least recently used |
| Cache.EntryStays | src/core/cache.rs:63-118 | an entry stays through reads of its own key while it lives, inserts that are not taken and all operations on other keys that do not push the total past a bound |
| Cache.ValueStays | src/core/cache.rs:63-118 | so a remembered value answers every request until it expires, not only the next |
| Ranges.ResolveRange | src/core/range.rs:28-61 | the window holds exactly the requested positions (section 14.1.2 of RFC 9110), and there is none iff none is requested |
| Ranges.ResolvesIffRequested | src/core/range.rs:23-27 | a range is satisfiable iff some byte of the file is requested |
| Ranges.WindowOf | src/s3/mod.rs:830-849 | the window lies in the file, its length does not wrap, and first and last byte of the content range are requested bytes |
| Ranges.BytesStream.Next | src/s3/mod.rs:216-247 | one poll yields the first item of what was still to come, and never more than what remains |
| Ranges.ReadAll | src/s3/mod.rs:212-248 | polling to the end yields the whole body |
| Ranges.DeliversUpstream | src/s3/mod.rs:221-228 | the bytes delivered are the upstream's, in order, cut at the content length |
| Ranges.ShortReadIff | src/s3/mod.rs:230-243 | the body ends in a short read, with the true number of bytes delivered, iff the upstream has fewer bytes than declared; the only other errors are the upstream's |
| Ranges.ItemsAreChunks | src/s3/mod.rs:216-247 | the items are, in order, what the chunks read become: each cut to what is still to come, each failure reported in its place; chunks are read until the declared bytes are there and no further |
| Ranges.ErrorFreeIff | src/s3/mod.rs:216-247 | a body is free of errors iff the declared bytes are there before the first failure |
| Ranges.BodyIsSlice | src/s3/mod.rs:203-248 | over any chunking the body is a prefix of the window, and the whole window iff it ends without error |
| HdfsHistory.DirectAnswers | src/s3/mod.rs:406-431 | what the gateway without caches answers in each state of a path: headers of the current content; for a GET exactly the bytes asked for, refused iff there are none |
| Gateway.RunVia | src/s3/mod.rs:305-384 | a request run to an intermediate point and on from there is the same request run through |
| Gateway.MetadataIsRemembered | src/s3/mod.rs:298-308 | metadata read once answers until it expires, whatever becomes of the file |
| Gateway.MetadataAnswersAll | src/s3/mod.rs:305-308 | live metadata answers every one of a sequence of requests, not only the next |
| Gateway.MissingIsRemembered | src/s3/mod.rs:301-311 | a path found missing is reported missing until that expires, whatever becomes of the path |
| Gateway.BlockMapIsReused | src/s3/mod.rs:352-355 | a block map serves every later GET of the same length and modification time until it expires |
| Gateway.CheckedReaderEnds | src/s3/mod.rs:875-901 | a window past the reader's end is answered with an internal error and drops block map and metadata of the path; else the body is streamed, and only a failing read drops them; no other path's entries change |
| Gateway.HdfsGateway.GetFileMeta | src/s3/mod.rs:305-334 | cache contents and answer are those of the steps up to the metadata |
| Gateway.HdfsGateway.OpenReader | src/s3/mod.rs:346-384 | cache contents and answer are those of the steps up to the reader |
| Gateway.HdfsGateway.HeadObject | src/s3/mod.rs:406-431 | cache contents and answer are those of a whole HEAD |
| Gateway.HdfsGateway.GetObject | src/s3/mod.rs:830-883 | cache contents and answer are those of a GET up to its response: metadata, range, reader, and the check that the window lies in the reader's version |
| Gateway.HdfsGateway.FinishBody | src/s3/mod.rs:884-901 | however many reads of a body fail, block map and metadata are dropped and nothing else changes; if none fails nothing changes |
| Interleaving.AdvanceKeepsShelf | src/s3/mod.rs:305-384 | a step of any request keeps any condition on what the caches hold about a path, if what it brings meets it |
| Interleaving.AdvanceKeepsFresh | src/s3/mod.rs:305-384 | a request that found only current state goes on so, and ends with the answer of the uncached gateway, or with that answer's body cut off by a failing read |
| Interleaving.CachesAreTransparent | src/s3/mod.rs:298-384 | over every interleaved run in which nobody changes a path, whatever reads fail anywhere, every HEAD and GET of it ends as without caches, or as a GET of the same headers, window and version whose own body failed; exactly as without caches if no read of its current version fails; for all limits, lifetimes, clocks and evictions |
| Interleaving.RunToIsRun | src/s3/mod.rs:305-384 | what the gateway's methods do is one of the interleaved runs |
| BlockMapAge.AdvanceKeepsTraced | src/s3/mod.rs:346-384 | every block map in use was opened after its headers' metadata was read, or under an equal length and modification time |
| BlockMapAge.EveryBodyIsServed | src/s3/mod.rs:336-384 | in every interleaving of requests, writes, deletions, outages, expiries and evictions a GET streams the window asked for, inside a version that could be opened, through a block map opened under the stamp in its headers |
| BlockMapAge.EveryAnswerHasItsCause | src/s3/mod.rs:305-384 | over every interleaved run each answer has its cause in the path's history: refused ranges have no byte in an announced length, missing keys and failures are a direct answer at some time, and the internal error comes of a block map too short for a window of its headers |
| BlockMapAge.BodyIsOneVersion | src/s3/mod.rs:883-914 | such a body is the requested positions of that one version, all of them unless it ends in an error |
| BlockMapAge.BlockMapsAreNotOlder | src/s3/mod.rs:336-384 | and it is content that the announced version or a later one has, if no block maps are cached or stamps tell versions apart; files that merely became unavailable or changed permission are told apart |
| BlockMapAge.DistinctStampsSuffice | src/s3/mod.rs:342-344 | with distinct stamps the block map is never of an earlier version than the headers |
| BlockMapAge.ConfusableIsStreamed | src/s3/mod.rs:352-357 | for every configuration that caches block maps, the run that serves an earlier version: metadata read, another version opened under it as its lifetime ends, metadata read again, block map reused |
| BlockMapAge.StreamsEarlierIff | src/s3/mod.rs:343-344 | for every configuration, every history and all `v < j`: some run streams version `v` under the headers of `j` iff block maps are cached, `v` can be opened, `j` repeats a stamp from `v` or before, and `v` is not empty unless `j` is |
| BlockMapAge.NeverOlderIff | src/s3/mod.rs:343-344 | for every configuration and history: no run serves content older than announced iff no block maps are cached or each confusable version's content is still there later; no run serves an earlier version iff none are cached or there is none to confuse |
| BlockMapAge.RunKeepsCold | src/s3/mod.rs:359-383 | with the block cache off every block map in use was opened after its headers' metadata was read |
| BlockMapAge.ReplacedFileIsServed | src/s3/cache.rs:27-29 | two one-byte files of equal modification time: the replaced byte is served under the new headers |
| SequentialRuns.AdvanceKeepsOrder | src/s3/mod.rs:305-334 | without concurrency no path is both known and known to be missing, step by step |
| SequentialRuns.ActsKeepOrder | src/s3/mod.rs:305-334 | the same after any sequence of requests and external changes |
| SequentialRuns.ActsStayFresh | src/s3/mod.rs:298-384 | what the caches hold about a path stays current through any requests, failing reads and changes elsewhere |
| SequentialRuns.OneFailurePerChange | src/s3/mod.rs:343-347 | after any sequential run, a request that fails on a stale open, a shrunk file or a broken stream is followed by answers from the current state until the path changes again, whatever is served, changed elsewhere or fails to be read in between; only a failing read of the current version can cut one off |

## Left out

- Pagination.PaginateSlash: requires sorted children and no file equal to a directory's output, which `ListingFromStatuses` delivers.
- ListObjects.ListPage: requires no more files than a vector can hold (`usize::MAX`), and a namespace that does not change during the request; `list_start` decides where it starts, also for `.` and `..`.
- ClientWalk.Walk: nothing changes between the pages; when another error is in reach a page is that error, which `ListPage` states.
- Cache.TtlCache.Insert: the weight is unbounded; `NeverWrapsIff` says for which limits a `usize` makes no difference.
- `BinaryHeap` is a set of cursors from which a least one is taken (no two are equal, which is proved), `LruCache` a recency-ordered sequence, sorting and `partition_point` their contracts.
- The mutex of each cache is the atomicity of its operations; locks on a poisoned mutex are not modelled.
- Conditional headers of HEAD and GET, object metadata beyond length and modification time (ETag text, content type, timestamps), and the rendering of headers and XML.
- The bucket and key checks before HEAD and GET: the model starts at the HDFS path that `KeyPathContained` describes.
- Mapping HDFS errors to S3 codes: answers carry the HDFS error itself.
- 32-bit targets, where a window beyond 4 GiB is refused.
- Other operations (bucket requests, refused writes), authentication, backpressure, the server loop, configuration, logging and language bindings.
- The directory-listing cache under changing namespaces: its freshness is only the time to live, which `HitIsLatest` states.

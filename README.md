# Duplicity deduplication core, modelled in Dafny

Duplicity is a WordPress plugin that finds and removes duplicate media. It
keeps two in-memory views of the media library:

- the attachment catalog maps each attachment post's id to its
  `_wp_attached_file` path;
- the checksum index maps each file's MD5 digest to the attachment paths
  whose file has that digest.

From these views it builds three groupings:

- "linted" groups: several posts naming the same path;
- duplicate posts, the older copy of the linted groups;
- duplicate files: several paths with identical content.

It also finds orphaned files in the uploads directory that no attachment
accounts for. `deduplicate_files` merges each group of identical files.
Every post of the group is repointed to one primary file. The other files
and their size variants are deleted. A search-replace is run for each
deleted file that is still referenced. `regenerate_postmeta` then rewrites
the plugin's `_duplicity_id` postmeta rows.

The model is in plain Dafny, one module per concern:

| module | what it holds |
|---|---|
| `Options`, `Strings`, `Sorting`, `PhpArray`, `Paths` | PHP's `false` returns, byte-wise string order, the stable sorts (`sort`, `ksort`, `arsort`), ordered arrays as sequences of key/value pairs with distinct keys, and `dirname`/`basename`/`pathinfo` |
| `Patterns` | the regular expressions, each as a matcher with soundness and completeness lemmas against a declarative form (`-WxH`, `-pdf[-WxH]`, the image editor's `-WxH-<10+ digits>`, web assets, `YYYY/MM/`, sister names) |
| `Site` | the site as a class: attachment rows, postmeta rows, the uploads directory as a value, and a log of the WordPress and WP-CLI calls the model records instead of following |
| `Catalog` | `load_attachments` (last row per id wins, ids ascending), `load_checksums`, the key filter of `get_duplicate_files`, the `array_search`/`unset` drain, `array_count_values` |
| `Grouping` | the shared scan of `get_linted_attachments` and `get_duplicate_posts` |
| `Orphans`, `Sisters` | the file tests of `get_orphans`, `webp_sister` and `get_sister_files` |
| `Consolidate`, `Repoint`, `Postmeta` | the steps of `deduplicate_files` and `regenerate_postmeta` as functions |
| `Utility`, `Attachment` | the two classes of static methods. The static caches `$attachments` and `$checksums` are fields of a Dafny class, each method is a Dafny method, and the loops keep their invariants |

The class methods are proved against the specification functions. The
properties of those functions are proved as lemmas. Examples:

- every post holding a duplicated file is reported exactly once, and now
  names a file with the same content;
- a linted group exists for exactly the paths held by two posts or more;
- the checksum index buckets exactly the attachment paths whose digest
  matches;
- a file is an orphan exactly when none of the derivation rules keeps it.

## Model

| member | source | states |
|---|---|---|
| `Utility.Utility.LoadAttachments` | trunk/lib/blobfolio/wp/duplicity/utility.php:61-89 | the catalog is reloaded from the rows exactly when a refresh is asked or nothing is loaded yet; the checksum cache is untouched |
| `Utility.Utility.GetAttachments` | trunk/lib/blobfolio/wp/duplicity/utility.php:97-100 | returns the catalog after that load: ids distinct and ascending, the cached one when no reload happened |
| `Utility.Utility.LoadChecksums` | trunk/lib/blobfolio/wp/duplicity/utility.php:266-288 | the index is rebuilt exactly when a refresh is asked or none is loaded. A rebuild first reloads the catalog under the same refresh. The new index is the checksum index of that catalog |
| `Utility.Utility.GetChecksums` | trunk/lib/blobfolio/wp/duplicity/utility.php:296-299 | returns the index after that load |
| `Utility.Utility.GetLintedAttachments` | trunk/lib/blobfolio/wp/duplicity/utility.php:309-340 | the groups are exactly the paths held by two ids or more. Each group lists exactly the ids holding its path, in ascending order. Paths are strictly ascending, and no id is in two groups. A path PHP keys by an integer (`PhpArray.IntKey`, such as `0` or `42`) gets an empty group, since the strict `array_search` finds no string identical to it |
| `Utility.Utility.GetDuplicateFiles` | trunk/lib/blobfolio/wp/duplicity/utility.php:350-368 | the result is the buckets of the (possibly reloaded) index that hold two paths or more, in ascending digest order |
| `Utility.Utility.GetSisterFiles` | trunk/lib/blobfolio/wp/duplicity/utility.php:378-416 | the readdir loop returns `SisterFiles` of the source |
| `Utility.Utility.WebpSister` | trunk/lib/blobfolio/wp/duplicity/utility.php:230-255 | the extension loop returns the first raster sister that exists, as `Orphans.WebpSister` |
| `Utility.Utility.ClassifyFile` | trunk/lib/blobfolio/wp/duplicity/utility.php:137-214 | one pass of the orphan loop body answers `Orphans.IsOrphan` for the relative path |
| `Utility.Utility.DerivedFromOfficial` | trunk/lib/blobfolio/wp/duplicity/utility.php:176-211 | a non-webp file is kept exactly when it is a size, PDF-preview or editor variant of an official path |
| `Utility.Utility.GetOrphans` | trunk/lib/blobfolio/wp/duplicity/utility.php:108-219 | the catalog is reloaded. A path is in the result exactly when the walk visits it and it is an orphan of that catalog's paths. The result is sorted, and is the sorted orphans in walk order |
| `Utility.Utility.CollectAffected` | trunk/lib/blobfolio/wp/duplicity/utility.php:575-593 | files are the dupes' sister lists key-unioned as written. Ids are distinct and are exactly the posts holding the primary or a dupe, in the order drained: `AffectedIds`, the dupes' holders in dupe order, each path's in catalog order, then the primary's. The caches are unchanged |
| `Utility.Utility.GatherGroup` | trunk/lib/blobfolio/wp/duplicity/utility.php:556-593 | selection is `Select`. Files are the corrected retire list. Ids are non-empty and distinct: exactly the holders of the primary or a dupe, in the order `AffectedIds` (`array_unique` keeps them as they are). Every holder of a truthy group path is among them |
| `Utility.Utility.RetireFiles` | trunk/lib/blobfolio/wp/duplicity/utility.php:631-665 | the uploads directory, log and report after the loop are `RetireAll` of the state before; rows and postmeta are unchanged |
| `Utility.Utility.RetireFile` | trunk/lib/blobfolio/wp/duplicity/utility.php:632-664 | one pass of the loop is `RetireOne` |
| `Utility.Utility.LogRewrite` | trunk/lib/blobfolio/wp/duplicity/utility.php:647-656 | appends the search-replace of `RewriteFor` to the log and changes nothing else |
| `Utility.Utility.RewriteEvent` | trunk/lib/blobfolio/wp/duplicity/utility.php:632-641 | the pair built is the one `RewriteFor` specifies |
| `Utility.Utility.RemoveFile` | trunk/lib/blobfolio/wp/duplicity/utility.php:658-664 | removal is `RemoveRetired`; the log, rows and postmeta are unchanged |
| `Utility.Utility.RetireGroup` | trunk/lib/blobfolio/wp/duplicity/utility.php:630-671 | fs and log become those of `RetireAll`. The report gains the deleted files and then the primary's sister list after deletion. The posts are unchanged. Files are only removed, never added or altered; when no listed file is the primary, the primary is a file afterwards exactly when it was before |
| `Utility.Utility.ConsolidateGroup` | trunk/lib/blobfolio/wp/duplicity/utility.php:550-671 | for one group, in order: (1) the rows of every affected id are repointed to the primary; (2) the repoint and metadata events are logged, with the first affected id as metadata source; (3) the ids are reported as posts; (4) the corrected retire list is retired; (5) the primary's sisters are reported as saved. The ids are `AffectedIds` in that order. Postmeta is unchanged. Files are only removed, and the primary is a file afterwards exactly when it was before |
| `Utility.Utility.RepointGroup` | trunk/lib/blobfolio/wp/duplicity/utility.php:598-620 | the rows of the ids now name the primary; the repoint and the metadata regeneration from `$primary_id`, the first id, are logged; the ids are appended to the report's posts; files and postmeta are unchanged |
| `Utility.Utility.ConsolidateNext` | trunk/lib/blobfolio/wp/duplicity/utility.php:547-672 | one group of the loop advances the loop's progress by one group: groups still held, posts reported, rows repointed, at most one truthy path of the group still held, files only removed |
| `Utility.Utility.Relint` | trunk/lib/blobfolio/wp/duplicity/utility.php:673-677 | when `$in_lint > 1` the catalog cache and the linted view are reloaded, and the new view has at most one linted group per group done; otherwise both are kept as they were. The loop's progress is kept either way |
| `Utility.Utility.Turn` | trunk/lib/blobfolio/wp/duplicity/utility.php:547-678 | one pass of the loop keeps its progress and leaves the linted view that of the cached catalog |
| `Utility.Utility.ConsolidateAll` | trunk/lib/blobfolio/wp/duplicity/utility.php:547-678 | after all groups, every post holding a truthy path of a group is reported, once. A reported post names a file of a group it held a path of. Every other row is as before. Of each group at most one truthy path is still held, and files were only removed |
| `Utility.Utility.DeduplicateFiles` | trunk/lib/blobfolio/wp/duplicity/utility.php:518-682 | the same over the duplicate groups of the catalog and the uploads directory at the call. With no duplicate group the report is empty and nothing changes. Postmeta is never touched. With no catalog path `"0"`, the catalog and directory afterwards have no duplicate group: a second run finds nothing to do |
| `Utility.Utility.RegeneratePostmeta` | trunk/lib/blobfolio/wp/duplicity/utility.php:692-725 | the rows and files are unchanged. Postmeta becomes the old rows without `_duplicity_id`, followed by one row per member of each linted group of the reloaded catalog; an integer-keyed path's empty group adds no row |
| `Utility.Utility.InsertChunks` | trunk/lib/blobfolio/wp/duplicity/utility.php:714-722 | the chunked inserts append exactly the rows given, in order |
| `Utility.Utility.NotePosts` | trunk/lib/blobfolio/wp/duplicity/utility.php:617-620 | the report's posts gain the ids, in order; the rest of the report is unchanged |
| `Utility.Utility.NoteSaved` | trunk/lib/blobfolio/wp/duplicity/utility.php:667-671 | the report's saved files gain the list, in order; the rest is unchanged |
| `Utility.OfficialPaths` | trunk/lib/blobfolio/wp/duplicity/utility.php:114-123 | the flipped catalog holds exactly the attachment paths |
| `Utility.LintedPaths` | trunk/lib/blobfolio/wp/duplicity/utility.php:557-563 | `isset($linted[...])` holds exactly for the linted group paths |
| `Utility.DrainMore` | trunk/lib/blobfolio/wp/duplicity/utility.php:583-591 | draining one more path keeps the invariant. The ids gathered are the holders of the paths drained so far. The remaining catalog holds none of those ids |
| `Utility.DrainedNext` | trunk/lib/blobfolio/wp/duplicity/utility.php:579-586 | draining dupe i keeps the drained ids followed by the drains still to come equal to `AffectedIds` |
| `Utility.DrainedLast` | trunk/lib/blobfolio/wp/duplicity/utility.php:588-591 | after the dupes, the primary's drain completes `AffectedIds`, whose ids are distinct and are exactly the holders of the group's paths |
| `Utility.FirstAffected` | trunk/lib/blobfolio/wp/duplicity/utility.php:596-598 | on an ascending catalog whose first dupe is held, `$primary_id` is the smallest id holding the first dupe |
| `Utility.DupGroupsOf` | trunk/lib/blobfolio/wp/duplicity/utility.php:350-368 | each duplicate-file group has two distinct truthy paths or more, all catalog paths of regular files, and no path is in two groups |
| `Utility.HeldAfterRepoint` | trunk/lib/blobfolio/wp/duplicity/utility.php:601-613 | repointing one group's holders to its primary leaves the holders of every later group's paths as they were |
| `Utility.PostedStep` | trunk/lib/blobfolio/wp/duplicity/utility.php:617-620 | appending one group's distinct holders keeps the report's posts distinct and complete for the groups done |
| `Utility.RepointedStep` | trunk/lib/blobfolio/wp/duplicity/utility.php:601-613 | after repointing one group, rows of unreported posts are unchanged, and a reported post names a file with the content it held |
| `Utility.GroupStep` | trunk/lib/blobfolio/wp/duplicity/utility.php:547-678 | one group advances held, posted and repointed together |
| `Utility.OnlyPrimaryHeld` | trunk/lib/blobfolio/wp/duplicity/utility.php:601-613 | after a group is repointed, the only truthy path of it any post still holds is the primary |
| `Utility.MergedStep` | trunk/lib/blobfolio/wp/duplicity/utility.php:601-613 | repointing a group to its primary keeps every held path a starting catalog path and leaves at most one truthy path of each group done held |
| `Utility.BetweenStep` | trunk/lib/blobfolio/wp/duplicity/utility.php:547-678 | one group consolidated with its files removed advances every part of the loop's progress, the merge and the directory included |
| `Utility.LintedMerged` | trunk/lib/blobfolio/wp/duplicity/utility.php:673-677 | the linted view reloaded after merges has at most one linted group whose key is a truthy path of each group done |
| `Utility.Survivor` | trunk/lib/blobfolio/wp/duplicity/utility.php:518-682 | a truthy path held at the end with digest d was in bucket d of the starting checksum index, since files were only removed |
| `Utility.SameBucket` | trunk/lib/blobfolio/wp/duplicity/utility.php:518-682 | two truthy paths of one starting bucket both still held are the same path |
| `Utility.NoDuplicatesLeft` | trunk/lib/blobfolio/wp/duplicity/utility.php:518-682 | after every group is merged, with no catalog path `"0"`, the checksum index of the final catalog and directory has no shared bucket |
| `Attachment.Attachment.LoadAttachments` | trunk/lib/blobfolio/wp/duplicity/attachment.php:46-74 | reload exactly on refresh or when not loaded |
| `Attachment.Attachment.GetAttachments` | trunk/lib/blobfolio/wp/duplicity/attachment.php:82-85 | returns the catalog after that load, ids distinct and ascending |
| `Attachment.Attachment.LoadChecksums` | trunk/lib/blobfolio/wp/duplicity/attachment.php:96-118 | as in the utility class, except that a rebuild reloads the catalog only when none is loaded, since this copy drops the refresh flag |
| `Attachment.Attachment.GetChecksums` | trunk/lib/blobfolio/wp/duplicity/attachment.php:126-129 | returns the index after that load |
| `Attachment.Attachment.GetDuplicatePosts` | trunk/lib/blobfolio/wp/duplicity/attachment.php:141-170 | as the linted groups, but each group lists its ids in the order the drain finds them. A path PHP keys by an integer (`PhpArray.IntKey`, such as `0` or `42`) gets an empty group, since the strict `array_search` finds no string identical to it. Empty catalog gives empty result |
| `Attachment.Attachment.GetDuplicateFiles` | trunk/lib/blobfolio/wp/duplicity/attachment.php:180-198 | the buckets of two paths or more; an empty index gives an empty result |
| `Catalog.QueryOrder` | trunk/lib/blobfolio/wp/duplicity/utility.php:67-79 | the query result is a permutation of the rows with ids non-decreasing |
| `Catalog.Assign` | trunk/lib/blobfolio/wp/duplicity/utility.php:81-84 | keyed assignment leaves distinct ids, each entry a row |
| `Catalog.AssignLast` | trunk/lib/blobfolio/wp/duplicity/utility.php:81-84 | the last row of each id is the one kept |
| `Catalog.AssignAscending` | trunk/lib/blobfolio/wp/duplicity/utility.php:78-84 | assigning rows in id order yields strictly ascending ids |
| `Catalog.CatalogSpec` | trunk/lib/blobfolio/wp/duplicity/utility.php:61-89 | the catalog is ascending with distinct ids, each entry a row, and holds exactly the ids of the rows |
| `Catalog.FetchCatalog` | trunk/lib/blobfolio/wp/duplicity/utility.php:80-84 | the loop yields `Catalog(rows)`, ascending |
| `Catalog.AddPathSpec` | trunk/lib/blobfolio/wp/duplicity/utility.php:275-278 | appending a path to its digest's bucket keeps digests distinct and buckets non-empty, and adds exactly that pair |
| `Catalog.RawIndexSpec` | trunk/lib/blobfolio/wp/duplicity/utility.php:272-280 | a path is in digest d's bucket exactly when it is an attachment path whose file has MD5 d |
| `Catalog.UniqueBuckets` | trunk/lib/blobfolio/wp/duplicity/utility.php:282-284 | each bucket is made unique in place, digests kept |
| `Catalog.ChecksumIndexSpec` | trunk/lib/blobfolio/wp/duplicity/utility.php:266-288 | the index has distinct digests and non-empty duplicate-free buckets, and buckets exactly the attachment paths by their MD5 |
| `Catalog.BucketOfPath` | trunk/lib/blobfolio/wp/duplicity/utility.php:272-280 | a path lies in one bucket only |
| `Catalog.BuildChecksums` | trunk/lib/blobfolio/wp/duplicity/utility.php:270-284 | both loops together yield `ChecksumIndex` |
| `Catalog.KeepSharedSpec` | trunk/lib/blobfolio/wp/duplicity/utility.php:358-364 | the filter keeps exactly the buckets of two paths or more |
| `Catalog.DuplicatesSpec` | trunk/lib/blobfolio/wp/duplicity/utility.php:350-368 | the duplicate files are exactly the shared buckets, digests strictly ascending |
| `Catalog.DuplicateGroups` | trunk/lib/blobfolio/wp/duplicity/utility.php:350-368 | every duplicate group has two distinct paths or more, each an attachment path of a regular file, and no path is in two groups |
| `Catalog.FilterDuplicates` | trunk/lib/blobfolio/wp/duplicity/utility.php:358-366 | the loop and `ksort` yield `Duplicates` |
| `Catalog.Drain` | trunk/lib/blobfolio/wp/duplicity/utility.php:330-333 | the `array_search`/`unset` loop yields exactly the ids holding the path, in catalog order, and the catalog without them |
| `Catalog.DrainStep` | trunk/lib/blobfolio/wp/duplicity/utility.php:330-333 | one step takes the first holder and leaves the rest of the drain unchanged |
| `Catalog.CountValues` | trunk/lib/blobfolio/wp/duplicity/utility.php:320 | one entry per distinct path, holding the number of ids holding it (keys kept as the path strings) |
| `Catalog.ArSort` | trunk/lib/blobfolio/wp/duplicity/utility.php:321 | a permutation ordered by count, descending |
| `Grouping.ScanPrefix` | trunk/lib/blobfolio/wp/duplicity/utility.php:329-335 | the groups built for the first i counted paths, each with its drained (optionally sorted) ids, or no ids for an integer-keyed path |
| `Grouping.ScanSharedPaths` | trunk/lib/blobfolio/wp/duplicity/utility.php:323-336 | the loop builds the prefix of counted paths with count two or more, and stops at the first count below two; an integer-keyed path is not searched for and gets no ids, and nothing is drained for it |
| `Grouping.ScanComplete` | trunk/lib/blobfolio/wp/duplicity/utility.php:323-327 | since counts descend, the paths scanned before the break are exactly those held twice or more |
| `Grouping.NoSharedIds` | trunk/lib/blobfolio/wp/duplicity/utility.php:329-333 | no id lands in two groups |
| `Grouping.GroupIdsHold` | trunk/lib/blobfolio/wp/duplicity/utility.php:329-335 | every id of a group holds that group's path |
| `Grouping.KSortEntries` | trunk/lib/blobfolio/wp/duplicity/utility.php:338 | `ksort` keeps the entries and orders the distinct paths strictly |
| `Grouping.FinishLinted` | trunk/lib/blobfolio/wp/duplicity/utility.php:335-338 | the scanned, id-sorted, `ksort`ed groups satisfy `IsLinted` |
| `Grouping.FinishDuplicatePosts` | trunk/lib/blobfolio/wp/duplicity/attachment.php:155-168 | without the id sort they satisfy `IsDuplicatePosts` |
| `Grouping.LintedGroups` | trunk/lib/blobfolio/wp/duplicity/utility.php:315-338 | the whole computation satisfies `IsLinted` (integer-keyed paths with empty groups), empty on an empty catalog |
| `Grouping.DuplicatePostGroups` | trunk/lib/blobfolio/wp/duplicity/attachment.php:146-168 | the whole computation satisfies `IsDuplicatePosts` (integer-keyed paths with empty groups), empty on an empty catalog |
| `Grouping.IntKeyGroupEmpty` | trunk/lib/blobfolio/wp/duplicity/utility.php:320-335 | two posts at path `0` give the single linted group `0` with no ids |
| `Grouping.DrainAscending` | trunk/lib/blobfolio/wp/duplicity/utility.php:330-333 | on an ascending catalog the drain finds ids in strictly ascending order |
| `Grouping.LintedAgreesWithDuplicatePosts` | trunk/lib/blobfolio/wp/duplicity/utility.php:330-335 | so the `sort` after the drain changes nothing: the linted groups and the duplicate posts agree |
| `Orphans.FirstExisting` | trunk/lib/blobfolio/wp/duplicity/utility.php:247-252 | returns the first stem plus extension that exists; None exactly when none does |
| `Orphans.WebpSister` | trunk/lib/blobfolio/wp/duplicity/utility.php:230-255 | None unless the path is truthy, ends in `.webp` and exists. Otherwise the first existing raster sister |
| `Orphans.IsOrphan` | trunk/lib/blobfolio/wp/duplicity/utility.php:137-214 | an orphan is never official, never a web asset, and always in scope. A webp in scope is an orphan exactly when it has no raster sister |
| `Orphans.WebpOrphan` | trunk/lib/blobfolio/wp/duplicity/utility.php:169-174 | an existing in-scope webp is an orphan exactly when none of gif/jpg/jpeg/png with its stem exists |
| `Orphans.VariantKept` | trunk/lib/blobfolio/wp/duplicity/utility.php:176-211 | a size, PDF-preview or editor variant of an official path is not an orphan |
| `Orphans.SizeVariantKept` | trunk/lib/blobfolio/wp/duplicity/utility.php:177-184 | `name-WxH.ext` beside an official `name.ext` is not an orphan |
| `Orphans.PdfVariantKept` | trunk/lib/blobfolio/wp/duplicity/utility.php:187-194 | `name-pdf[-WxH].ext` beside an official `name.pdf` is not an orphan |
| `Orphans.EditorVariantKept` | trunk/lib/blobfolio/wp/duplicity/utility.php:197-211 | `name-WxH-<10+ digits>.ext` beside an official `name` or `name.ext` is not an orphan |
| `Orphans.OrphansOfSpec` | trunk/lib/blobfolio/wp/duplicity/utility.php:136-215 | the loop collects exactly the walked paths that are orphans |
| `Sisters.Matching` | trunk/lib/blobfolio/wp/duplicity/utility.php:402-410 | an entry is kept exactly when it matches the sister pattern and is a regular file, prefixed by the subdirectory |
| `Sisters.SisterFiles` | trunk/lib/blobfolio/wp/duplicity/utility.php:378-416 | empty unless the source is truthy, its directory exists and its name and extension are truthy. Otherwise exactly the regular files of that directory named `name.ext` or `name-WxH.ext` |
| `Sisters.SourceIsSister` | trunk/lib/blobfolio/wp/duplicity/utility.php:399-408 | the source file itself is among its sisters |
| `Sisters.SisterOf` | trunk/lib/blobfolio/wp/duplicity/utility.php:399-408 | every listed regular file matching the pattern is found |
| `Sisters.SizedIsSister` | trunk/lib/blobfolio/wp/duplicity/utility.php:399-408 | every listed `name-WxH.ext` regular file is found |
| `Patterns.SizeMatchSound` | trunk/lib/blobfolio/wp/duplicity/utility.php:177 | what the `-\d+x\d+` matcher finds before a position has the size form |
| `Patterns.SizeMatchComplete` | trunk/lib/blobfolio/wp/duplicity/utility.php:177 | and any size form ending there is what it finds |
| `Patterns.SizeSuffixSound` | trunk/lib/blobfolio/wp/duplicity/utility.php:177 | a non-empty `-\d+x\d+$` match has the size form |
| `Patterns.SizeSuffixComplete` | trunk/lib/blobfolio/wp/duplicity/utility.php:633 | a name ending in a size form of length k matches with length k |
| `Patterns.PdfSuffixLen` | trunk/lib/blobfolio/wp/duplicity/utility.php:187 | a match has length 0 or at least 4 and begins with `-pdf` |
| `Patterns.PdfSuffixSound` | trunk/lib/blobfolio/wp/duplicity/utility.php:187 | what follows `-pdf` in a longer match has the size form |
| `Patterns.EditorSuffixSound` | trunk/lib/blobfolio/wp/duplicity/utility.php:197 | a non-empty `-\d+x\d+-\d{10,}$` match has the editor form |
| `Patterns.EditorSuffixComplete` | trunk/lib/blobfolio/wp/duplicity/utility.php:197 | a name ending in an editor form matches it |
| `Patterns.SisterShapes` | trunk/lib/blobfolio/wp/duplicity/utility.php:399-407 | an entry matches the sister pattern exactly when it is `name.ext` or `name` + a size form + `.ext` |
| `Patterns.SisterItself` | trunk/lib/blobfolio/wp/duplicity/utility.php:399 | `name.ext` matches its own pattern |
| `Patterns.SisterSized` | trunk/lib/blobfolio/wp/duplicity/utility.php:399 | `name-WxH.ext` matches the pattern of `name.ext` |
| `Paths.RootSubdir` | trunk/lib/blobfolio/wp/duplicity/utility.php:153-154 | a path with no slash has subdirectory `./` and is its own basename |
| `Paths.NestedSubdir` | trunk/lib/blobfolio/wp/duplicity/utility.php:153-154 | `d/n` has subdirectory `d/` and basename `n` |
| `Paths.NameParts` | trunk/lib/blobfolio/wp/duplicity/utility.php:154-156 | basename, filename and extension of `d/stem.ext` are `stem.ext`, `stem` and `ext` |
| `Paths.BasenameParts` | trunk/lib/blobfolio/wp/duplicity/utility.php:392-394 | a basename `stem.ext` has filename `stem` and extension `ext` |
| `Postmeta.GroupRows` | trunk/lib/blobfolio/wp/duplicity/utility.php:707-710 | one row per member, in order, pointing at the group's first member |
| `Postmeta.MetaRowsMembers` | trunk/lib/blobfolio/wp/duplicity/utility.php:706-711 | a row is built exactly for each member of each group, with the group's first member as value; an empty group adds none |
| `Postmeta.LintedGroup` | trunk/lib/blobfolio/wp/duplicity/utility.php:329-335 | a linted group of a string-keyed path has two members or more, exactly the holders of its path, the first being the smallest; the group of an integer-keyed path is empty |
| `Postmeta.SortedHolders` | trunk/lib/blobfolio/wp/duplicity/utility.php:330-335 | the sorted holders of a path held twice or more are two or more, exactly its holders, smallest first |
| `Postmeta.PostmetaRowsSound` | trunk/lib/blobfolio/wp/duplicity/utility.php:703-711 | every row built points a post at the smallest id sharing its path |
| `Postmeta.PostmetaRowsComplete` | trunk/lib/blobfolio/wp/duplicity/utility.php:703-711 | a post sharing its path with another gets a row exactly when that path is not integer-keyed |
| `Postmeta.OnePathEach` | trunk/lib/blobfolio/wp/duplicity/utility.php:315-318 | with distinct ids, each id holds one path |
| `Postmeta.BuildInserts` | trunk/lib/blobfolio/wp/duplicity/utility.php:706-711 | the loop yields `MetaRows` |
| `Postmeta.Chunks` | trunk/lib/blobfolio/wp/duplicity/utility.php:715 | chunks are non-empty, at most n long, and flatten back to the list |
| `Postmeta.WithoutKey` | trunk/lib/blobfolio/wp/duplicity/utility.php:696-700 | the delete keeps exactly the rows with another key |
| `Repoint.RepointRows` | trunk/lib/blobfolio/wp/duplicity/utility.php:607-613 | the rows of the affected ids now name the primary; other rows are unchanged, positions kept |
| `Repoint.CatalogRepoint` | trunk/lib/blobfolio/wp/duplicity/utility.php:601-613 | reloading the catalog after the update equals repointing the loaded catalog |
| `Repoint.CatalogAfterRepoint` | trunk/lib/blobfolio/wp/duplicity/utility.php:601-613 | after the update an affected id in the catalog names the primary, and every other entry is unchanged |
| `Consolidate.SelectPrimary` | trunk/lib/blobfolio/wp/duplicity/utility.php:556-573 | the loop and `array_shift` compute `Select` |
| `Consolidate.FirstLinted` | trunk/lib/blobfolio/wp/duplicity/utility.php:557 | the index of the first linted path: all before it are unlinted |
| `Consolidate.ScanGroupSpec` | trunk/lib/blobfolio/wp/duplicity/utility.php:556-567 | the primary is the first linted path, or none. The dupes are the others in order. `in_lint` counts the linted paths |
| `Consolidate.SelectSpec` | trunk/lib/blobfolio/wp/duplicity/utility.php:556-573 | as above, with the first path as primary when none is linted |
| `Consolidate.SelectPartition` | trunk/lib/blobfolio/wp/duplicity/utility.php:556-573 | on distinct paths the primary and dupes partition the group |
| `Consolidate.SelectIdempotent` | trunk/lib/blobfolio/wp/duplicity/utility.php:556-573 | selecting again from primary then dupes keeps a linted primary |
| `Consolidate.SelectCovers` | trunk/lib/blobfolio/wp/duplicity/utility.php:556-573 | the primary is a group path, and every truthy group path is the primary or a dupe |
| `Consolidate.UpdateFilesNext` | trunk/lib/blobfolio/wp/duplicity/utility.php:578-581 | each dupe other than the primary key-unions its sister list into the files |
| `Consolidate.PrimaryListedAsWritten` | trunk/lib/blobfolio/wp/duplicity/utility.php:578-592 | as written, the primary `d/name-WxH.ext` is on the list retired for a dupe `d/name.ext` |
| `Consolidate.Spare` | trunk/lib/blobfolio/wp/duplicity/utility.php:592 | keeps exactly the entries not naming the primary's file, distinct if the input is |
| `Consolidate.UpdateFiles` | trunk/lib/blobfolio/wp/duplicity/utility.php:576-593 | the retire list is distinct, drawn from the list as written, and never names the primary's file |
| `Consolidate.SizeTag` | trunk/lib/blobfolio/wp/duplicity/utility.php:632-634 | the size tag is empty or a `-WxH` suffix of the name |
| `Consolidate.RewriteFor` | trunk/lib/blobfolio/wp/duplicity/utility.php:636-641 | `from` is the path without quotes. `to` is the primary's same-size variant when that exists, and the primary otherwise |
| `Consolidate.RewriteKeepsSize` | trunk/lib/blobfolio/wp/duplicity/utility.php:637-638 | a `stem-WxH` file is rewritten to the primary's `-WxH` variant |
| `Consolidate.LogRetired` | trunk/lib/blobfolio/wp/duplicity/utility.php:647-656 | a search-replace is logged exactly when the path is still referenced; nothing else changes |
| `Consolidate.RemoveRetired` | trunk/lib/blobfolio/wp/duplicity/utility.php:658-664 | a regular file adds its size and its name to the report and is gone when unlink succeeds. Any other path changes nothing, and other files are untouched |
| `Consolidate.RetireOne` | trunk/lib/blobfolio/wp/duplicity/utility.php:631-665 | the two steps in turn |
| `Consolidate.RetireSpares` | trunk/lib/blobfolio/wp/duplicity/utility.php:631-665 | a file not on the list is still there after the loop |
| `Consolidate.RetireShrinks` | trunk/lib/blobfolio/wp/duplicity/utility.php:631-665 | the retire loop only removes files: every file left is one that was there, unchanged |
| `Consolidate.RetireReports` | trunk/lib/blobfolio/wp/duplicity/utility.php:631-665 | the loop only adds bytes and appends deleted files, each from the list, at most one per entry; posts and saved files are unchanged |
| `Sorting.SortInts` | trunk/lib/blobfolio/wp/duplicity/utility.php:335 | `sort` on ids: a permutation, non-decreasing |
| `Sorting.SortStrings` | trunk/lib/blobfolio/wp/duplicity/utility.php:217 | `sort` on paths: a permutation, byte-wise non-decreasing |
| `Sorting.KSort` | trunk/lib/blobfolio/wp/duplicity/utility.php:338 | `ksort`: a permutation, keys non-decreasing |
| `PhpArray.IntKeyShapes` | trunk/lib/blobfolio/wp/duplicity/utility.php:320 | `0`, `42` and `-7` become integer keys; `042`, `-0`, the empty string and any path with `/` or `.` stay strings |
| `PhpArray.Search` | trunk/lib/blobfolio/wp/duplicity/utility.php:330 | `array_search` fails exactly when the value is absent |
| `PhpArray.Unset` | trunk/lib/blobfolio/wp/duplicity/utility.php:332 | `unset` removes exactly the entries with that key |
| `PhpArray.SearchUnsetStep` | trunk/lib/blobfolio/wp/duplicity/utility.php:330-333 | one search-and-unset takes the first holder, and leaves distinct keys and the remaining drain |
| `PhpArray.Unique` | trunk/lib/blobfolio/wp/duplicity/utility.php:592-593 | `array_values(array_unique)`: distinct, same members, identity on a distinct list |
| `PhpArray.KeyUnion` | trunk/lib/blobfolio/wp/duplicity/utility.php:580 | `+` on lists keeps the left list and adds only the right list's entries past its length |
| `Site.Unlink` | trunk/lib/blobfolio/wp/duplicity/utility.php:661 | the file is gone, directories are untouched, and the files left are files that were there, unchanged |

## Left out

- SQL, `$wpdb`, WP-CLI output, confirmation and progress bar: the database is the `Site` rows and postmeta, and console I/O is not modelled.
- `mysql_search` (utility.php:428-503) is the parameter `referenced` of `DeduplicateFiles`, because it queries the database schema. Whether `unlink` succeeds is the parameter `unlinkOk`.
- `WP_CLI::launch_self('search-replace', ...)`, the two `UPDATE` statements' `guid` column, `wp_generate_attachment_metadata` and `wp_update_attachment_metadata` are recorded as events in the site's log. Their effects on other tables, and the thumbnails WordPress regenerates, are not modelled.
- `load_paths`, `$upload_dir` and `$upload_url`: paths are relative to the uploads directory throughout. The `strpos` prefix test in `get_orphans` always holds for such paths and is not modelled.
- `nice_bytes`, `install_plugin`/`uninstall_plugin`, the plugin, CLI and must-use loader files and the build scripts: outside the deduplication core.
- PHP's numeric-string comparison in `sort` and `ksort`: strings are compared byte by byte, and ids are integers. Every `array_search` in the core is strict, so it never compares numerically. `ksort` would order an integer key (a path such as `0`) against string keys by PHP's mixed comparison; the model orders it as its string.
- PHP arrays keep the paths as string keys. PHP stores a decimal integer path under an integer key (`PhpArray.IntKey`). The model keeps the string, and models the consequence where it matters: the strict `array_search` at utility.php:330 and attachment.php:162 finds nothing, so the group is empty and nothing is drained (`Grouping.GroupIds`).
- Files are identified up to a leading `./` only (`Site.StripDot`). Other spellings of one disk file, such as `2024//05/a.jpg` or `/2024/05/a.jpg`, are distinct entries of the modelled file system. So `Utility.Utility.ConsolidateGroup`'s clause that the primary file survives does not cover a dupe that is another spelling of the primary's file. On a real disk, unlinking that dupe deletes the primary.
- PCRE's `$` also matching before a final newline: patterns are anchored at the very end of the string.
- `Utility.Utility.DeduplicateFiles`: states the posts reported and the rows after the whole loop. The files deleted, the search-replaces, the bytes saved and the files kept are stated per group by `Utility.Utility.ConsolidateGroup` only, because the uploads directory changes between groups.
- `Utility.Utility.DeduplicateFiles`: requires the caches to agree with the site at the call, and no file at the empty path. PHP's static caches can be stale from an earlier call in the same request; the model does not follow a stale cache.
- `Utility.Utility.GatherGroup`: returns the corrected retire list `Consolidate.UpdateFiles`, not the list of utility.php:592, which can hold the primary (see Findings). `Utility.Utility.CollectAffected` still returns the list as written.
- `Utility.Utility.ConsolidateGroup`: retires the corrected list, so the primary is never deleted; the code as written can delete it (see Findings).
- `Utility.Utility.DeduplicateFiles`: the no-duplicates-left clause requires that no catalog path is `"0"`. A linted `"0"` taken as primary is falsy, so the code goes on choosing a primary and `"0"` is neither a dupe nor the primary: its posts are not repointed and its file stays, and a second run finds that group again.
- `Utility.Utility.ConsolidateAll`: a group path that is `"0"` is falsy in PHP and is skipped as a primary. The completeness clause therefore speaks of truthy paths only.
- The metadata source id is the first affected id in the order collected (`AffectedIds`), not the oldest post as the source's comment says; `Utility.FirstAffected` shows it is the oldest holder of the first dupe. The model follows the code.
- The primary's subdirectory, filename and extension are recomputed per retired file rather than once per group; the values are the same.
- The key-union `+=` of sister lists keeps the code's behaviour: a later dupe adds only the sister entries past the length of the list so far. `Consolidate.UpdateFiles` keeps that and removes only the primary's own file.

## Findings

| source | as written | input that shows it | evidently intended | confidence | as-written member | corrected member |
|---|---|---|---|---|---|---|
| trunk/lib/blobfolio/wp/duplicity/utility.php:576-593 | the list of files to delete is the dupes' sister lists, and only the dupe itself is compared with the primary | a group `{2024/05/a.jpg, 2024/05/a-150x150.jpg}` of identical files where `a-150x150.jpg` is linted and becomes the primary: the sister list of the dupe `a.jpg` holds `a-150x150.jpg`, so the primary every post was just repointed to is deleted at line 661 | the file kept is never deleted | not executed | `Consolidate.PrimaryListedAsWritten` | `Consolidate.UpdateFiles` |

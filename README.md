# arueshalae, modelled in Dafny

arueshalae keeps a local copy of a user's favorites from an image board. It has three parts:

- a userscript in the browser, which walks the favorites pages, reads each post's tags and image link, and uploads what the server lacks;
- a Rust server, which stores posts, tags and media files in SQLite and on disk, and answers searches;
- a small gallery, which pages through the stored posts.

This project models the sequential core of all three and proves what that code promises.

**Post store and intake.** Each SQLite table is a field of a store class, and each write statement is a method over it. The stores are:

- `DownloaderDatabase.Store`, for the downloader's `posts` and `downloads` tables;
- `Upload.Database`, for the upload path's `posts`, `tags` and `post_tags`;
- `Migrations.Database`, for `PRAGMA user_version`.

Read-only queries are functions over a snapshot of the tables. The SQL semantics the code depends on are written out:

- `ON CONFLICT DO NOTHING … RETURNING`;
- `NOT IN` with a NULL in its subquery;
- `IN (...)` with `GROUP BY … HAVING COUNT(1) = n`;
- `LIMIT`/`OFFSET`;
- `fetch_one` on a missing row.

**Media decisions, naming and cleanup.** The content classifier, file sizes and subprocess outcomes are parameters. File names, thumbnail paths and files are plain values: a `Path` is a list of components, and `Files.Disk` maps present paths to contents. The three media modules are different revisions of the same idea, and each is modelled on its own text:

- `MediaProcessor` keeps the smaller of the original and the compressed image, and never compresses an image whose detected extension is `jpeg` or `gif`;
- `DownloaderMediaProcessor` always keeps the compressed image;
- `DownloaderImageFile` re-encodes from 3 MiB up, with no blacklist.

The cleanup guards `FileCleaner` and `ImageFile` are classes over the disk.

**Pagination.** `WebRoutes.Paginate` is the gallery's page-button window.

**Userscript.** DOM reads and storage become sequences of strings and numbers. Network answers become function parameters: the status of each upload, the outcome of each attempt, and the ids on each favorites page. The model covers:

- the search-box toggle buttons: `SearchEnhancements.ts` and `search-box.ts` have the same `toggleValue` and buttons, modelled once in `SearchToggle`;
- the autocomplete form and its history;
- the retry loops, with the delay as a `real` and the waits returned as a list;
- the two sync loops;
- the tag filtering and dedup.

`Text` models the library string operations the code calls:

- JavaScript's `split`, `join`, `trim` and `Number.parseInt`, and its truncating `%`;
- Rust's `split_whitespace`, `parse::<i64>` and `format!("{:07}")`.

Every file name is built and parsed back through these.

Two behaviours of the userscript follow its code as written and are stated as such:

- a prefixed button also removes any token that merely starts with the prefix text, such as `sorted` or `scoreboard` (`SearchToggle.Toggle`);
- ArrowUp with nothing selected picks the second-to-last suggestion, not the last (`FavoritesSearch.UpFromNoSelection`).

## Model

| member | source | states |
|---|---|---|
| DownloaderDatabase.Store.InsertPosts | src/downloader/database.rs:6-24 | an empty batch returns nothing and leaves the table as it was; otherwise old rows are kept as a prefix, every input id becomes known, the returned ids are the remote ids of the appended rows in insertion order, without repeats, and as a set exactly the input ids that were not known before |
| DownloaderDatabase.InsertedRowStep | src/downloader/database.rs:6-24 | a value row with an unknown remote id appends one row to the table and its remote id to the returned ids, and every id of the batch so far is then known |
| DownloaderDatabase.SkippedRowStep | src/downloader/database.rs:6-24 | a value row whose remote id is known adds nothing, and every id of the batch so far is still known, the returned ones being exactly the unknown ones |
| DownloaderDatabase.Store.InsertIfAbsent | src/downloader/database.rs:12-16 | one value row of the batch: a row with the next rowid is appended exactly when the remote id is unknown (`ON CONFLICT DO NOTHING`), and the id is known afterwards |
| DownloaderDatabase.ResubmitInsertsNothing | src/downloader/database.rs:12-18 | inserting the same batch twice returns nothing the second time |
| DownloaderDatabase.NewIdsDistinct | src/downloader/database.rs:12-17 | rows appended to a table whose remote ids are unique carry distinct remote ids, so the `RETURNING` list has no repeats |
| DownloaderDatabase.Store.PostCount | src/downloader/database.rs:26-31 | `COUNT(1)` of the posts table equals the number of distinct known remote ids |
| DownloaderDatabase.RowCountIsRemoteIdCount | src/downloader/database.rs:26-31 | with `remote_id` unique, the row count is the number of known remote ids |
| DownloaderDatabase.PendingRows | src/downloader/database.rs:33-46 | the selected rows are exactly the posts that pass `NOT IN` over the downloads, in strictly descending id order |
| DownloaderDatabase.Pending | src/downloader/database.rs:33-46 | an id is pending exactly when some post with that remote id passes the `NOT IN` test |
| DownloaderDatabase.PendingOrdered | src/downloader/database.rs:33-46 | the pending list holds no remote id twice |
| DownloaderDatabase.Store.PendingPosts | src/downloader/database.rs:33-46 | `pending_posts` over the store: exactly the posts without a download, with no repeats |
| DownloaderDatabase.NullDownloadHidesEveryPost | src/downloader/database.rs:38-41 | a downloads row whose `post_id` is NULL makes `NOT IN` unknown for every post, so nothing is pending |
| DownloaderDatabase.Store.InsertDownload | src/downloader/database.rs:49-69 | appends one downloads row whose post id is the subquery's answer (NULL for an unknown remote id); for a known remote id that post stops being pending and every other post keeps its status |
| DownloaderDatabase.PendingAfterDownload | src/downloader/database.rs:56-60 | a download for a known remote id removes exactly that post from the pending set |
| DownloaderDatabase.FindId | src/downloader/database.rs:59 | the subquery `SELECT p.id FROM posts p WHERE p.remote_id = ?` finds an id exactly when the remote id is known, and the row it names is in the table |
| DownloaderDatabase.Store.GetInternalPostId | src/downloader/database.rs:71-76 | `Ok(id)` exactly when the remote id is known, with `(id, remote_id)` a row of the table; a `RowNotFound` error otherwise |
| DownloaderDatabase.NextRowId | src/downloader/database.rs:12-16 | the rowid SQLite gives a new row is larger than every id in a well-formed table |
| DownloaderDatabase.RemoteIdsOf | src/downloader/database.rs:17 | the `remote_id` column of the rows, in row order |
| DownloaderApi.ApiState.ReceivePosts | src/downloader/api.rs:52-63 | when the insert statement fails, `?` replies with the error, sends nothing and changes no row; otherwise it inserts the batch as `insert_posts` does, appends the returned ids, in order, to the channel when its receiver is alive (a failed send is ignored), and replies success |
| DownloaderApi.ApiState.Send | src/downloader/api.rs:60 | a send appends the id to the queue when the receiver is alive and is otherwise a no-op whose error is discarded |
| DownloaderApi.ResubmitEnqueuesNothing | src/downloader/api.rs:58-61 | submitting a batch twice enqueues only the ids that were unknown before the first call, once each |
| DownloaderApi.ApiState.PostCount | src/downloader/api.rs:65-69 | the count endpoint replies with the store's post count |
| DownloaderDatabase.Store.constructor | src/downloader/database.rs:6-76 | the store starts with empty `posts` and `downloads` tables |
| DownloaderApi.ApiState.constructor | src/downloader/api.rs:52-63 | the handler state starts with the given store, an empty channel and the given receiver state |
| Upload.AsStr | src/upload.rs:172-181 | every kind's column text is a non-empty lower-case word |
| Upload.AsStrIsSerdeName | src/upload.rs:162-181 | `as_str` of a kind is the name serde's `rename_all = "lowercase"` reads back as that same kind |
| Upload.SerdeNameIsAsStr | src/upload.rs:162-181 | every name serde accepts is the `as_str` of the kind it yields, so the two agree in both directions |
| Upload.ParseTagKind | src/upload.rs:163-170 | serde accepts exactly the five lowercase variant names as a tag kind |
| Upload.AsStrInjective | src/upload.rs:173-181 | distinct kinds have distinct column texts, in both directions |
| Upload.FilterAlreadyDownloaded | src/upload.rs:64-80 | an empty input gives an empty answer without a query; otherwise the answer is exactly the input ids that are stored external ids, each once when `external_id` is unique |
| Upload.Database.FilterAlreadyDownloadedPosts | src/upload.rs:64-80 | the same query over the store: exactly the stored input ids, without repeats |
| Upload.Database.InsertPost | src/upload.rs:82-135 | the transaction succeeds exactly when no statement up to the commit fails, and a failure leaves all three tables unchanged; a known external id returns its stored id and leaves the posts table alone; a new one appends a row with the given extension, mime and flag whose id was never used; on success the tag table is the one after the upserts and one association row per listed tag is appended |
| Upload.TagStatements | src/upload.rs:112-130 | the loop over the tags succeeds exactly when the failing statement, if any, comes after its two statements per tag; the tag table is then the result of the upserts in list order and the association rows are appended in list order |
| Upload.TagStep | src/upload.rs:113-129 | one iteration: the upsert keeps the tag table well formed and extends the step-by-step description by one tag, and the association row it adds is the one read off the final table |
| Upload.AssocRowsGrow | src/upload.rs:122-129 | association rows already added keep resolving to the same tag ids after a later upsert |
| Upload.AssocRows | src/upload.rs:122-129 | one association row per listed tag, in list order, whose tag id is the subquery on its name |
| Upload.AssocRowsResolve | src/upload.rs:122-129 | after the upserts every association row's subquery finds a tag, so no `tag_id` is NULL |
| Upload.UpsertTag | src/upload.rs:114-120 | `ON CONFLICT DO NOTHING`: a known name leaves the table unchanged; a new name appends one row with the next id and the given kind |
| Upload.UpsertTagProperties | src/upload.rs:114-120 | the upsert keeps the table well formed and every row in place (an existing tag keeps its kind and id), and the name is known afterwards and no other name is added |
| Upload.UpsertTagRows | src/upload.rs:114-120 | the upsert keeps the table well formed and keeps every earlier row as a prefix |
| Upload.UpsertTagNames | src/upload.rs:114-120 | after the upsert the known names are the old ones plus the upserted name |
| Upload.UpsertTagFinds | src/upload.rs:114-124 | a name known before the upsert is still found with the same id |
| Upload.TagsAfterProperties | src/upload.rs:112-130 | the upserts of an upload keep every tag row (so existing tags keep kind and id), add rows only for new names, and make every listed name known |
| Upload.TagsAfterRows | src/upload.rs:112-120 | the upserts keep the table well formed and every earlier row as a prefix |
| Upload.TagsAfterNames | src/upload.rs:112-120 | the known names after the upserts are the old ones plus the listed names |
| Upload.FindTag | src/upload.rs:124 | `SELECT id FROM tags WHERE name = ?` finds an id exactly when the name is known, and that id belongs to a row with the name |
| Upload.FindTagPrefix | src/upload.rs:124 | rows appended later do not change which id a known name is found with |
| Upload.NextTagId | src/upload.rs:114-115 | the id of a new tag row is larger than every id in a well-formed table |
| Upload.FindPost | src/upload.rs:92-94 | `SELECT id FROM posts WHERE external_id = ?` finds a row exactly when the external id is stored, and the row has that external id |
| Upload.FindPostUnique | src/upload.rs:92-97 | with `external_id` unique, the lookup returns the one row that carries it |
| Upload.NextPostId | src/upload.rs:99-109 | the id `RETURNING id` gives a new post is larger than every id in a well-formed table |
| Upload.PostsSnoc | src/upload.rs:99-109 | appending a row with a new external id and the next id keeps the table well formed and adds exactly that external id and that id |
| Upload.Database.GetDownloadCount | src/upload.rs:137-141 | `COUNT(1)` of the posts table, which equals the number of stored external ids |
| Upload.ExternalIdCount | src/upload.rs:137-141 | with `external_id` unique, the row count is the number of stored external ids |
| Upload.FromMultipart | src/upload.rs:184-232 | the field loop returns exactly what `Decode` describes: the first malformed field's error, else the required `id` and `image`, else the data |
| Upload.ReadField | src/upload.rs:195-221 | one field of the loop: its error is the field's own (an unparsable `id`, undecodable `tags`), and without one an `id`, `image` or `tags` field overwrites its own slot while other names change nothing |
| Upload.DecodeOfPrefixError | src/upload.rs:190-224 | an error among the first fields is what the whole form decodes to, as the loop returns at the first one |
| Upload.Decode | src/upload.rs:190-231 | a decoded upload has both an `id` and an `image` field, its id is the last `id` field's text trimmed and parsed, and with no `tags` field its tag list is empty |
| Upload.DecodeByLast | src/upload.rs:226-231 | without a malformed field, the result is decided by the last `id`, `image` and `tags` fields: missing id, then missing image, then the data with tags defaulting to none |
| Upload.LastNamed | src/upload.rs:197-223 | the field whose value the loop keeps is a field with that name, and there is none exactly when no field has the name |
| Upload.NoErrorInAnyPart | src/upload.rs:198-219 | a form the loop gets through has no malformed `id` or `tags` field anywhere |
| Upload.PrefixStep | src/upload.rs:190-224 | one more field updates the first error and the last `id`, `image` and `tags` exactly as one loop iteration does |
| Upload.FirstErrorStep | src/upload.rs:198-219 | the first error of one more field is the earlier one, else that field's own |
| Upload.FirstErrorPrefix | src/upload.rs:190-224 | once some prefix of the fields has an error, the first error of the whole form is that one, as the loop returns at once |
| Upload.UnknownFieldIgnored | src/upload.rs:220-222 | a field with any other name changes nothing |
| Upload.RepeatedFieldOverrides | src/upload.rs:197-219 | a well-formed later field of a known name becomes the one that counts |
| Upload.MissingTagsDefaultToEmpty | src/upload.rs:227-229 | an `id` and an `image` field alone decode to that id and image with no tags |
| Upload.IdIsTrimmed | src/upload.rs:199-204 | an id padded with white space on both sides parses to its value |
| Upload.ParseId | src/upload.rs:198-204 | the parsed id lies in the `i64` range; a blank field is rejected; a field whose trimmed text is the decimal rendering of an `i64` yields that number |
| Upload.Database.constructor | src/upload.rs:82-141 | the store starts with empty `posts`, `tags` and `post_tags` tables |
| Search.New | src/search.rs:28-45 | the tokens of `split_whitespace` are sorted in input order: those without a leading `-` go to the include list unchanged, those with one go to the exclude list with that `-` removed, and a lone `-` goes nowhere |
| Search.Includes | src/search.rs:34-41 | every include term is an input token that does not start with `-` |
| Search.Excludes | src/search.rs:35-38 | every exclude term is non-empty and is an input token with one `-` removed |
| Search.TermsAppend | src/search.rs:34-42 | sorting tokens distributes over concatenation, so both lists keep the input order |
| Search.IncludesMembers | src/search.rs:34-41 | a word is an include term exactly when it is a token that does not start with `-` |
| Search.ExcludesMembers | src/search.rs:35-38 | a word is an exclude term exactly when it is non-empty and `-` followed by it is a token |
| Search.TermsWellFormed | src/search.rs:28-45 | every term is non-empty and holds no white space, and no include term starts with `-` |
| Search.StripsOneDash | src/search.rs:35-37 | `strip_prefix` removes one `-` only: `--x` excludes `-x`, and `-` alone is neither kind of term |
| Search.Matching | src/search.rs:164-177 | a post survives the join, the `IN` filter and `HAVING COUNT(1) = include.len()` exactly when its group has as many joined rows as there are include terms |
| Search.MatchingAscending | src/search.rs:164-177 | the filter keeps the table's ascending id order |
| Search.SearchRows | src/search.rs:164-179 | the result holds exactly the matching posts, and with ids unique it is in strictly descending id order (`ORDER BY p.id DESC`) |
| Search.SearchResult | src/search.rs:163-185 | the query returns the external ids of those rows, in that order |
| Search.Run | src/search.rs:163-185 | a search returns exactly the external ids of the posts whose group passes `HAVING COUNT(1) = n` for the include terms, and nothing when there is no include term |
| Search.ExcludeTermsIgnored | src/search.rs:163-185 | the exclude terms never change what the query returns |
| Search.EmptyIncludeFindsNothing | src/search.rs:169-173 | with no include term the `IN ()` list matches nothing and the search returns no post |
| Search.RowNamesCard | src/search.rs:166-169 | joined rows carrying distinct tag names are as many as their names |
| Search.JoinedRowsInjective | src/search.rs:166-169 | with tag names unique and each association stored once, two joined rows of a post with the same name are the same row |
| Search.JoinedRowsImage | src/search.rs:166-169 | the names the joined rows of a post carry are the post's tag names that are include terms |
| Search.JoinedRowsCount | src/search.rs:166-176 | the group of a post has one row per include term among its tag names |
| Search.FoundIffAllTermsPresent | src/search.rs:163-185 | with distinct include terms, a post is found exactly when there is an include term and the post carries every one of them |
| Search.RepeatedTermFindsNothing | src/search.rs:169-178 | an include term given twice makes `HAVING COUNT(1)` unreachable, so the search finds nothing |
| Search.RepeatedAssociationHidesPost | src/search.rs:169-178 | an association row present twice makes its post's group count that tag twice, so a search for that tag alone does not return the post |
| Search.ReuploadHidesPost | src/upload.rs:92-129 | uploading the same post twice with the same tag returns the same internal id both times, and afterwards a search for that tag does not return the post, because the second upload adds the association row again |
| Search.FirstUploadFound | src/upload.rs:92-110 | after an upload the post is found by its external id, under the id the upload returned |
| Search.ReuploadOutcome | src/upload.rs:92-129 | two uploads of one post with one tag give the same id, and the doubled association row then keeps the post out of a search for that tag |
| Search.FirstUploadRows | src/upload.rs:112-129 | after one upload with a single tag the tag is known and the last association row links the post to it |
| Search.ReuploadRows | src/upload.rs:112-129 | a second upload with the same tag keeps the tag table and appends an association row equal to the previous one |
| Search.ToSetBelowLength | src/search.rs:176-178 | a list with a repeat has fewer distinct elements than entries |
| Search.ToSetAtMostLength | src/search.rs:176-178 | a list never has more distinct elements than entries |
| Search.Autocomplete | src/search.rs:187-199 | at most ten suggestions, each a tag whose name contains the term; when fewer than ten come back, every tag containing the term is among them |
| Search.GetPost | src/search.rs:201-212 | `fetch_one` succeeds exactly when some post has the external id, and returns a stored post with it |
| Search.GetPostFindsStored | src/search.rs:201-212 | with external ids unique, the lookup of a stored post's external id returns that post |
| Search.SourcePath | src/search.rs:78-83 | an image is read from its own file under the base directory; any other post from its JPEG thumbnail under `.thumbs` |
| Search.ServeSource | src/search.rs:76-90 | the handler goes on exactly when the post is stored and its source file is on disk; an unknown id is "post not found in database"; the path served is the post's source path |
| Search.ServeImage | src/search.rs:68-101 | `serve_image` succeeds exactly when the source is found, and sends that file with the post's mime type as its content type |
| Sql.Skip | src/web/database.rs:17 | the first row `OFFSET` keeps is never past the end of the rows |
| Sql.LimitOffset | src/web/database.rs:13-17 | `LIMIT ? OFFSET ?` returns the consecutive rows starting at the offset, as many as the limit allows and the rows hold, and every remaining row for a negative limit |
| Sql.NameContains | src/web/database.rs:46 | `name LIKE '%term%'` keeps exactly the rows whose name contains the term |
| Sql.FirstMatches | src/web/database.rs:45-47 | `LIKE … LIMIT 10` returns at most the limit, only matching rows, and every matching row when fewer than the limit come back |
| Files.JoinPath | src/media_processor.rs:30-38 | `base.join(name)` is the base path with one more component, the name |
| Files.SplitAtFirst | src/downloader/media_processor.rs:253-255 | splitting at the first separator gives a part without it, the separator and the rest; there is nothing to split exactly when the separator is absent |
| Files.SplitAtFirstOf | src/downloader/media_processor.rs:253-255 | a text without the separator, the separator and any rest split back into the text and the rest |
| Files.PaddedNameRoundTrip | src/downloader/media_processor.rs:253-255 | the name `{sort_id:07}_{post_id}.{extension}` can be read back into the two numbers and the extension, negative numbers and extensions with dots included |
| Files.ParseJoined | src/downloader/media_processor.rs:253-255 | two numbers written without `_` or `.`, joined by `_` and followed by `.` and an extension, read back into the numbers and the extension |
| Files.NoSeparators | src/downloader/media_processor.rs:253-255 | a rendered number contains neither `_` nor `.`, so the separators of the name stay unambiguous |
| Files.PaddedNameInjective | src/downloader/media_processor.rs:253-255 | two posts get the same file name exactly when both numbers and the extension agree, so files never collide |
| Files.PaddedNameExample | src/media_processor.rs:28 | sort id 42, post 99 and `png` give `0000042_99.png` |
| Files.Disk.constructor | src/media_processor.rs:214-223 | the disk starts with the given files |
| Files.Disk.MoveFile | src/media_processor.rs:214-223 | `move_file` succeeds exactly when the source exists and the rename or the fallback copy works; a rename moves the content and drops the source, a copy adds the destination and keeps the source, and a failure changes nothing |
| Files.Disk.RemoveFile | src/downloader/media_processor.rs:57 | `remove_file` with its error ignored: the path is gone afterwards and nothing else changes |
| Files.Disk.RemoveAll | src/downloader/media_processor.rs:53-62 | removing each listed path in turn leaves every other file in place and none of the listed ones |
| WebDatabase.MatchesMembers | src/web/database.rs:14-15 | the rows `JOIN downloads d ON d.id = p.id` gives one post are exactly the downloads rows with the post's id, each carrying the post's sort id |
| WebDatabase.JoinMembers | src/web/database.rs:13-15 | a joined row is a downloads row whose id is the id of some post, with that post's sort id |
| WebDatabase.SortedCons | src/web/database.rs:16 | a row with a sort id at least the head's, put in front of rows in descending order, keeps the order |
| WebDatabase.SortedTail | src/web/database.rs:16 | the rest of rows in descending order is in descending order |
| WebDatabase.Insert | src/web/database.rs:16 | inserting a row into rows in descending `sort_id` order keeps the order and adds exactly that row |
| WebDatabase.OrderBySortIdDesc | src/web/database.rs:16 | `ORDER BY p.sort_id DESC` yields the same rows, as a multiset, in descending sort id order |
| WebDatabase.Project | src/web/database.rs:13 | `SELECT p.id, d.file_name, d.mime` keeps each joined row's downloads columns, in order |
| WebDatabase.Ordered | src/web/database.rs:13-16 | the ordered join holds exactly the joined rows, in descending sort id order |
| WebDatabase.GetPage | src/web/database.rs:9-24 | `get_page(limit, offset)` returns at most `limit` rows: the consecutive rows of the ordered join starting after the first `offset`, as many as remain |
| WebDatabase.ProjectPage | src/web/database.rs:13-17 | the page of an ordered join is its slice starting at the offset, projected to the downloads columns |
| WebDatabase.PageRowsAreJoined | src/web/database.rs:14-15 | every row on a page is a downloads row whose id is the id of a post |
| WebDatabase.AdjacentPages | src/web/database.rs:17 | two consecutive pages of one size are, together, the page of twice that size starting at the first offset, so paging misses and repeats nothing |
| WebDatabase.AdjacentSlices | src/web/database.rs:17 | two `LIMIT size OFFSET o` and `OFFSET o + size` cuts of the same ordered rows make the cut of twice the size at `o` |
| WebDatabase.GetPostForSendImage | src/web/database.rs:26-35 | `fetch_one` succeeds exactly when a downloads row has the id, and returns such a row |
| WebDatabase.GetTagSuggestions | src/web/database.rs:37-53 | at most ten tags, each one from the view whose name contains the input; every such tag when fewer than ten come back |
| WebModels.ImagePath | src/web/models.rs:10-22 | a post whose mime starts with `video` is shown through `.thumbs/<file_name>.jpeg`; any other post through `<file_name>` under the base directory |
| WebModels.VideoShownThroughCommittedThumb | src/web/models.rs:11-14 | for a video the gallery reads exactly the thumbnail path `commit` writes, and never the main file |
| WebRoutes.DivCeil | src/web/routes.rs:84 | `div_ceil` is the least number of pages of the given size that hold the posts |
| WebRoutes.Range | src/web/routes.rs:109 | `(a..=b).collect()` is the ascending consecutive numbers from `a` to `b`, empty when `b < a` |
| WebRoutes.Window | src/web/routes.rs:95-106 | the window lies in `1..=total`, holds the current page, and has `min(buttons, total)` pages |
| WebRoutes.Paginate | src/web/routes.rs:83-114 | no posts give no pages and both flags false; otherwise `total_page_count` is the ceiling of posts per page, the pages are `min(max(button_count, 1), total)` consecutive ascending numbers inside `1..=total` holding the clamped current page, `show_first` holds exactly when the window starts after page 1 and `show_last` exactly when it ends before the last page |
| WebRoutes.OutOfRangePageIsClamped | src/web/routes.rs:93 | a current page below 1 gives the window of page 1, and one past the end gives the window of the last page |
| WebRoutes.FiveButtonExample | src/web/routes.rs:62-111 | with five buttons and ten pages: page 1 shows 1 to 5, page 10 shows 6 to 10, and page 6 shows 4 to 8 with both end buttons |
| WebRoutes.SendImage | src/web/routes.rs:116-143 | `send_image` succeeds exactly when the downloads row exists and its image path is on disk, and sends that path with the row's mime |
| Migrations.Indices | src/database.rs:33-34 | the migration indices from `a` up to but not including `b`, ascending |
| Migrations.SkipCount | src/database.rs:33 | `current_version as usize` agrees with the version modulo 2^64, is the version itself when it is not negative, and is at least 2^63 for a negative version, so such a version skips every migration |
| Migrations.FirstFailure | src/database.rs:33-44 | the first index from the start whose transaction fails, with every index before it succeeding; none when all succeed |
| Migrations.Database.constructor | src/database.rs:29-31 | the database starts at the given `user_version` and the given committed migrations |
| Migrations.Database.RunMigrations | src/database.rs:28-47 | migrations run in index order from `user_version as usize`; without a failure all of them are committed and the version ends at `MIGRATIONS.len()` (unchanged when it was already there or past it); a failure at index `k` keeps the earlier steps, leaves the version at `k`, and is returned |
| Migrations.RerunAppliesNothing | src/database.rs:33 | a second run after a successful one applies nothing and keeps the version at `MIGRATIONS.len()` |
| MediaProcessor.DetectType | src/media_processor.rs:196-211 | detection succeeds exactly when the full 255-byte header can be read and a signature is recognised, and then yields that type; a shorter file is an error |
| MediaProcessor.Process | src/media_processor.rs:53-65 | a result exists only for content detected as video or image |
| MediaProcessor.OtherKindsRejected | src/media_processor.rs:60-64 | a kind other than video or image is rejected as unsupported |
| MediaProcessor.ProcessVideo | src/media_processor.rs:67-111 | a video fails with the duration error when ffprobe fails, with the thumbnail error when ffmpeg fails, and otherwise keeps the upload as original with a thumbnail and the detected mime and extension |
| MediaProcessor.SentToCompression | src/media_processor.rs:140-141 | an image goes to compression exactly when its extension is neither `jpeg` nor `gif` and its size is strictly above 3 MiB (3145728 bytes) |
| MediaProcessor.ProcessImage | src/media_processor.rs:139-153 | an image fails only when it is sent to compression and vips fails; it never has a thumbnail; one not sent to compression is kept as uploaded with its type; the JPEG is kept only when it was sent to compression and came out strictly smaller |
| MediaProcessor.CompressImage | src/media_processor.rs:155-194 | compression fails exactly when vips fails; the JPEG is kept exactly when it is strictly smaller than the upload, as `image/jpeg`, `jpeg` and not original; otherwise the upload is kept with its type, as original |
| MediaProcessor.VideoResult | src/media_processor.rs:67-111 | a video succeeds exactly when probing the duration and running ffmpeg succeed, and then keeps the upload, is original, has a thumbnail and the detected mime and extension |
| MediaProcessor.ImageResult | src/media_processor.rs:139-194 | an image fails only when it is sent to compression (extension not `jpeg` or `gif` and size strictly above 3 MiB) and vips fails; it never has a thumbnail; the compressed file is kept exactly when it is strictly smaller, as `image/jpeg`, `jpeg`, not original; otherwise the upload is kept with its detected type, as original |
| MediaProcessor.OriginalIffUploadKept | src/media_processor.rs:67-194 | a result is original exactly when the uploaded file is the one kept, and has a thumbnail exactly when it is a video |
| MediaProcessor.BlacklistNeverCompressed | src/media_processor.rs:16 | an image whose detected extension string is `jpeg` or `gif` is kept as uploaded whatever its size |
| MediaProcessor.ThumbPath | src/media_processor.rs:36-38 | the thumbnail of a file name lives at `.thumbs/<name>.jpeg` under the base directory |
| MediaProcessor.MainPath | src/media_processor.rs:28-31 | the main file lies directly under the base directory, and its name reads back as the id, the external id and the extension |
| MediaProcessor.ThumbPathDiffers | src/media_processor.rs:28-39 | a post's thumbnail path is never its main file's path |
| MediaProcessor.Commit | src/media_processor.rs:27-45 | `commit` succeeds exactly when the kept file and, for a video, the thumbnail can be moved; then the main path `{id:07}_{external_id}.{extension}` holds the kept file and the thumbnail path holds the thumbnail; without a thumbnail the thumbnail path is left as it was |
| MediaProcessor.MoveKept | src/media_processor.rs:30-44 | the main move, then the thumbnail move when there is a thumbnail, succeed exactly when each source exists and its move works; the destinations then hold the sources' contents, and without a thumbnail the thumbnail path is left as it was |
| DownloaderMediaProcessor.FileName | src/downloader/media_processor.rs:253-255 | `file_name(s, p, e)` (`s` padded to seven digits, `_`, `p`, `.` and `e`) can be read back into the three |
| DownloaderMediaProcessor.FileCleaner.constructor | src/downloader/media_processor.rs:38-43 | a new cleaner has no paths and is armed |
| DownloaderMediaProcessor.FileCleaner.Add | src/downloader/media_processor.rs:45-47 | `add` appends the path and keeps the earlier paths and the flag |
| DownloaderMediaProcessor.FileCleaner.Cleanup | src/downloader/media_processor.rs:53-62 | an armed cleaner deletes exactly its registered paths and a disarmed one deletes nothing |
| DownloaderMediaProcessor.FileCleaner.Drop | src/downloader/media_processor.rs:64-68 | dropping the cleaner is its cleanup |
| DownloaderMediaProcessor.FileCleaner.Commit | src/downloader/media_processor.rs:26-29 | `commit` disarms the cleaner and touches no file, so the later drop deletes nothing |
| DownloaderMediaProcessor.Expected | src/downloader/media_processor.rs:79-104 | a post is stored only when its type was detected and is a video or an image |
| DownloaderMediaProcessor.CompressedAlwaysJpeg | src/downloader/media_processor.rs:176-225 | an image is compressed exactly when its extension is not `jpeg` or `gif` and its size is above 3 MiB; a compressed image is always stored as `jpeg`, `image/jpeg`, not original, with no size comparison, and any other image under its own name and mime, as original |
| DownloaderMediaProcessor.VideoStoredAsIs | src/downloader/media_processor.rs:106-120 | a video is stored under its own extension and mime, as original |
| DownloaderMediaProcessor.UnsupportedRejected | src/downloader/media_processor.rs:99-103 | a detected kind other than video or image is an error |
| DownloaderMediaProcessor.Compresses | src/downloader/media_processor.rs:176-180 | the downloader sends an image to compression under exactly the condition the upload server uses |
| DownloaderMediaProcessor.FinalName | src/downloader/media_processor.rs:176-198 | the stored name reads back as the sort id, the post id and `jpeg` for a compressed image, or the detected extension otherwise |
| DownloaderMediaProcessor.Registered | src/downloader/media_processor.rs:106-201 | a run registers at most two paths with the cleaner |
| DownloaderMediaProcessor.RegistrationOrder | src/downloader/media_processor.rs:107-148 | for a video the final path is registered first, before thumbnailing and moving, and the thumbnail path second, exactly when ffprobe and ffmpeg succeed |
| DownloaderMediaProcessor.Processor.constructor | src/downloader/media_processor.rs:85-96 | the processor starts with a fresh, empty, armed cleaner |
| DownloaderMediaProcessor.Processor.Run | src/downloader/media_processor.rs:97-103 | the dispatch on the detected kind stores what `Expected` says; on success the cleaner holds the registered paths and is armed; on an error the dropped cleaner has deleted exactly those paths |
| DownloaderMediaProcessor.Processor.ProcessVideo | src/downloader/media_processor.rs:106-150 | the same for a video: final path, then thumbnail, then the move |
| DownloaderMediaProcessor.Processor.VideoSteps | src/downloader/media_processor.rs:107-150 | once the name is known: the duration error, the thumbnail error or the move error in that order, else the stored post; on success the final and thumbnail paths are registered, on an error exactly the registered ones are gone |
| DownloaderMediaProcessor.Processor.CompressImage | src/downloader/media_processor.rs:197-225 | the same for a compressed image: the final `jpeg` path is registered before magick runs |
| DownloaderMediaProcessor.Processor.CompressSteps | src/downloader/media_processor.rs:197-225 | once the name is known: a magick failure is the compression error and leaves the final path removed; otherwise the JPEG is stored, not original, with the final path registered |
| DownloaderMediaProcessor.Processor.KeepImage | src/downloader/media_processor.rs:181-194 | the same for a kept image: its final path is registered before the move |
| DownloaderMediaProcessor.Processor.KeepSteps | src/downloader/media_processor.rs:181-194 | once the name is known: a failed move is the move error and leaves the final path removed; otherwise the image is stored under its own type, as original, with the final path registered |
| DownloaderMediaProcessor.Processor.CleanupOne | src/downloader/media_processor.rs:53-68 | dropping after a failed single-path run deletes exactly that path |
| DownloaderMediaProcessor.Process | src/downloader/media_processor.rs:79-104 | `process` returns what `Expected` says, and a failed run leaves no registered file behind |
| DownloaderImageFile.ImageInfo | src/downloader/image_file.rs:137-151 | the format is known exactly when 64 header bytes are read and a format with at least one extension is guessed, and it gives that format's mime and first extension |
| DownloaderImageFile.ImageFile.constructor | src/downloader/image_file.rs:32-40 | a fresh value is original, armed, and has no extension or mime |
| DownloaderImageFile.ImageFile.FileName | src/downloader/image_file.rs:101-109 | with the extension set, the name is `{sort_id:07}_{post_id}.{ext}` and reads back into the three |
| DownloaderImageFile.ImageFile.Mime | src/downloader/image_file.rs:115-118 | with the mime set, `mime()` is that mime |
| DownloaderImageFile.ImageFile.Cleanup | src/downloader/image_file.rs:120-128 | an armed value deletes only its final path and disarms; a disarmed one does nothing; an armed value without an extension panics before deleting anything |
| DownloaderImageFile.ImageFile.Commit | src/downloader/image_file.rs:111-113 | `commit` disarms the value and touches no file |
| DownloaderImageFile.ImageFile.CompressAndSave | src/downloader/image_file.rs:55-78 | the fields become `jpeg`, `image/jpeg` and not original before encoding; a successful encode writes the final path |
| DownloaderImageFile.ImageFile.MoveImage | src/downloader/image_file.rs:80-91 | the move succeeds exactly when the temporary file exists and the rename or copy works, and places it at the final path |
| DownloaderImageFile.ImageFile.Place | src/downloader/image_file.rs:44-50 | below 3 MiB the guessed mime and extension are kept as original and the temporary file is moved to the final path; from 3 MiB the image is re-encoded as `jpeg`; a failed step leaves the final path deleted and the value disarmed |
| DownloaderImageFile.ImageFile.PlaceOriginal | src/downloader/image_file.rs:44-47 | the guessed type is set, and the move succeeds exactly when the temporary file exists and the rename or copy works; a failure deletes the final path and disarms |
| DownloaderImageFile.ImageFile.MoveOrDiscard | src/downloader/image_file.rs:47 | the move succeeds exactly when the temporary file exists and the rename or copy works, placing its contents at the final path; a failure deletes the final path and disarms; the type fields are untouched |
| DownloaderImageFile.ImageFile.PlaceCompressed | src/downloader/image_file.rs:48-50 | the type becomes `jpeg` and not original; the final path holds the encoding exactly when it succeeds, and is deleted otherwise |
| DownloaderImageFile.NewAsWritten | src/downloader/image_file.rs:26-53 | `new` as written: an `image_info` or `metadata` failure panics in the drop; otherwise a size below 3 MiB keeps the guessed mime and extension as original and, when the move succeeds, the final path holds the temporary file's contents (the temporary path is gone after a rename); 3 MiB or more (exactly 3 MiB included, JPEG and GIF included) is re-encoded as `jpeg` and written to the final path; a failed step deletes the final path |
| DownloaderImageFile.NewPanicsOnShortHeader | src/downloader/image_file.rs:42 | a header shorter than 64 bytes makes `new` panic |
| DownloaderImageFile.New | src/downloader/image_file.rs:26-53 | `new` with the early failures returned as errors and no panic; everything else as written |
| DownloaderImageFile.CleanupTwice | src/downloader/image_file.rs:120-128 | a second cleanup deletes nothing |
| SearchToggle.IndexOf | src/userscript/components/SearchEnhancements.ts:31 | `indexOf(":")` is -1 exactly when there is no colon, and otherwise the position of the first one |
| SearchToggle.Special | src/userscript/components/SearchEnhancements.ts:31 | the prefix is the text before the first `:`; it is empty exactly when there is no colon or it is at index 0, and otherwise holds no colon and starts the value followed by `:` |
| SearchToggle.Toggle | src/userscript/components/SearchEnhancements.ts:30-41 | with a prefix, the value comes last after the tokens not starting with the prefix, in their input order and with their repeats; without one, the result is the tokens deduplicated in first-occurrence order with the value filtered out when it was present and appended when it was absent, so it has no repeats and holds the value exactly when the input did not |
| SearchToggle.SpecialToggle | src/userscript/components/SearchEnhancements.ts:31-34 | dropping the tokens with the prefix keeps every other token and adds nothing, so only the new value carries the prefix |
| SearchToggle.WordToggle | src/userscript/components/SearchEnhancements.ts:35-40 | toggling a plain word leaves no repeats and flips whether the word is present, while every other token stays as present as it was |
| SearchToggle.Toggled | src/userscript/components/SearchEnhancements.ts:30-43 | splitting the new input text at spaces gives back exactly the toggled terms when the value has no space; when no term is left the text is empty |
| Seqs.DedupFirstOccurrenceOrder | src/userscript/components/SearchEnhancements.ts:36-40 | `Array.from(new Set(values))` holds each token once, at the position of its first occurrence: tokens come in the order of their first occurrences in the input |
| SearchToggle.TextInput.constructor | src/userscript/components/SearchEnhancements.ts:27-28 | the input holds the given text |
| SearchToggle.StringSet.FromValues | src/userscript/components/SearchEnhancements.ts:36 | `new Set(values)` holds the values once each, in order of first occurrence |
| SearchToggle.StringSet.Delete | src/userscript/components/SearchEnhancements.ts:37 | `delete` reports whether the value was present and removes it, keeping the order of the rest |
| SearchToggle.StringSet.Add | src/userscript/components/SearchEnhancements.ts:38 | `add` appends a value that is absent and leaves a present one where it is |
| SearchToggle.ToggleValue | src/userscript/components/SearchEnhancements.ts:26-44 | a missing input changes nothing; otherwise the input's text becomes the toggle of its space-separated tokens, joined with single spaces |
| SearchToggle.FirstIndex | src/userscript/components/SearchEnhancements.ts:31 | a position holding the first colon is what `indexOf` returns |
| SearchToggle.PrefixOf | src/userscript/components/SearchEnhancements.ts:31 | a value made of a colon-free, non-empty text, `:` and anything has that text as prefix |
| SearchToggle.ButtonPrefixes | src/userscript/components/SearchEnhancements.ts:9-14 | the three buttons have the prefixes `sort`, `score` and `score` |
| SearchToggle.NoPrefixWithoutLeadingText | src/userscript/search-box.ts:31 | a value without a colon, or starting with one, has no prefix and is toggled as a set member |
| SearchToggle.TogglePiecesHaveNoSpace | src/userscript/search-box.ts:30-43 | toggling space-free tokens with a space-free value gives space-free tokens |
| SearchToggle.ToggleSpecialIdempotent | src/userscript/search-box.ts:32-34 | pressing a prefixed button twice equals pressing it once |
| SearchToggle.ToggledSpecialIdempotent | src/userscript/search-box.ts:30-43 | the same holds for the input text, through the split and the join |
| SearchToggle.SplitJoinTerms | src/userscript/search-box.ts:30-43 | joining space-free tokens with spaces and splitting again gives back the same non-empty tokens |
| SearchToggle.ToggledSetTwice | src/userscript/search-box.ts:35-43 | pressing an unprefixed button twice gives back the tokens the text had, as a set, duplicates dropped |
| SearchToggle.WordToggledTwice | src/userscript/components/SearchEnhancements.ts:35-40 | toggling a word on terms that agree, apart from empty terms, with one toggle's result gives back the original non-empty terms |
| SearchToggle.ScoreButtonsExclusive | src/userscript/search-box.ts:10-14 | pressing one score button removes the other, and neither removes the sort button |
| SearchToggle.ReplacesPrefixed | src/userscript/search-box.ts:32-34 | any other token with the value's prefix is removed |
| FavoritesSearch.JsRem | src/userscript/components/FavoritesSearch.ts:41 | JavaScript's `%`: the result has the sign of the dividend and the magnitude of the non-negative remainder |
| FavoritesSearch.NextIndex | src/userscript/components/FavoritesSearch.ts:41 | the new highlight is JavaScript's remainder of `active + delta + len` by `len`: strictly between `-len` and `len`, the mathematical remainder when the sum is not negative, and never positive when it is |
| FavoritesSearch.NextIndexInRange | src/userscript/components/FavoritesSearch.ts:38-44 | for an active index in `[-1, len)` and a step of ±1, the next index is `(active + delta + len) mod len` and lies in `[0, len)` |
| FavoritesSearch.SelectionWraps | src/userscript/components/FavoritesSearch.ts:41 | ArrowDown from the last entry wraps to 0, ArrowUp from 0 wraps to the last, and ArrowDown with no selection selects 0 |
| FavoritesSearch.UpFromNoSelection | src/userscript/components/FavoritesSearch.ts:41 | ArrowUp with no selection selects the second-to-last entry, or the only one |
| FavoritesSearch.LastWord | src/userscript/components/FavoritesSearch.ts:166-168 | the last word holds no space |
| FavoritesSearch.LastWordAfterSpace | src/userscript/components/FavoritesSearch.ts:166-168 | the last word of a text ending in a space and a word is that word trimmed |
| FavoritesSearch.ReplacedSearch | src/userscript/components/FavoritesSearch.ts:27-31 | the new text keeps everything up to and including the last space, then the chosen term and one space |
| FavoritesSearch.ReplacedSearchSegments | src/userscript/components/FavoritesSearch.ts:27-31 | `replaceTerm` replaces the last space-separated segment by the new term, keeps the earlier ones, and appends a trailing space |
| FavoritesSearch.LastWordAfterReplace | src/userscript/components/FavoritesSearch.ts:31-33 | the last word after a replacement is empty, the term the follow-up fetch asks for |
| FavoritesSearch.WithTermFirst | src/userscript/components/FavoritesSearch.ts:148-151 | the term comes first and nowhere else, every other entry is kept, and the history grows by at most one |
| FavoritesSearch.NewTermPrepended | src/userscript/components/FavoritesSearch.ts:150 | a term not yet in the history is put in front of it |
| FavoritesSearch.WithTermFirstKeepsOrder | src/userscript/components/FavoritesSearch.ts:150 | the other entries keep their order |
| FavoritesSearch.WithTermFirstIdempotent | src/userscript/components/FavoritesSearch.ts:150 | adding the same term twice equals adding it once |
| FavoritesSearch.HistoryStorage.constructor | src/userscript/components/FavoritesSearch.ts:154-164 | the stored history is the given list |
| FavoritesSearch.HistoryStorage.AddToHistory | src/userscript/components/FavoritesSearch.ts:148-152 | the stored history becomes the term followed by the other entries |
| FavoritesSearch.Form.constructor | src/userscript/components/FavoritesSearch.ts:9-19 | the form starts with the newest history entry or an empty search, no suggestions, nothing selected and the list hidden |
| FavoritesSearch.Form.ReceiveSuggestions | src/userscript/components/FavoritesSearch.ts:15-25 | fetched suggestions replace the list and clear the selection |
| FavoritesSearch.Form.Input | src/userscript/components/FavoritesSearch.ts:73-79 | typing sets the search text and shows the list |
| FavoritesSearch.Form.MoveSelection | src/userscript/components/FavoritesSearch.ts:38-44 | with no suggestions nothing changes; otherwise the selection moves by the step with wrap-around and the list is shown |
| FavoritesSearch.Form.ReplaceTerm | src/userscript/components/FavoritesSearch.ts:27-36 | the search text becomes the replacement and the fetched suggestions replace the list with nothing selected |
| FavoritesSearch.Form.OnKeyDown | src/userscript/components/FavoritesSearch.ts:80-111 | Escape hides the list and clears the selection; without suggestions other keys change nothing; the arrows move the selection; Enter and Tab replace the last word by the selected suggestion only when one is selected; other keys change nothing |
| FavoritesSearch.Form.Submit | src/userscript/components/FavoritesSearch.ts:49-59 | once the search request resolves, the trimmed search text is recorded first in the history, the list is hidden and the selection cleared; when the request rejects, the history and the list state are unchanged |
| FavoritesSearchHistory.WithoutTerm | src/userscript/components/FavoritesSearchHistory.ts:27-28 | the filter keeps exactly the entries with another term |
| FavoritesSearchHistory.Added | src/userscript/components/FavoritesSearchHistory.ts:15-18 | an entry with no results leaves the history unchanged; otherwise it comes first, no later entry has its term, every entry with another term is kept, and the history grows by at most one |
| FavoritesSearchHistory.AddedKeepsOrder | src/userscript/components/FavoritesSearchHistory.ts:18 | the other entries keep their order |
| FavoritesSearchHistory.AddedNewTerm | src/userscript/components/FavoritesSearchHistory.ts:18 | an entry with a new term is put in front of the history |
| FavoritesSearchHistory.AddedAfterRemoving | src/userscript/components/FavoritesSearchHistory.ts:18-28 | adding after removing the term is the same as adding |
| FavoritesSearchHistory.RemovedIdempotent | src/userscript/components/FavoritesSearchHistory.ts:27-30 | removing a term twice is the same as removing it once |
| FavoritesSearchHistory.History.constructor | src/userscript/components/FavoritesSearchHistory.ts:13 | the history starts as the loaded list |
| FavoritesSearchHistory.History.AddToHistory | src/userscript/components/FavoritesSearchHistory.ts:15-21 | the history becomes the history with the entry added |
| FavoritesSearchHistory.History.RemoveFromHistory | src/userscript/components/FavoritesSearchHistory.ts:27-31 | the history loses every entry with the term and keeps the rest in order |
| FavoritesSearchHistory.TrimAll | src/userscript/components/FavoritesSearchHistory.ts:113 | each word is replaced by its trim |
| FavoritesSearchHistory.CleanWords | src/userscript/components/FavoritesSearchHistory.ts:111-114 | the kept words are non-empty, their own trim, and hold no space |
| FavoritesSearchHistory.CleanTerm | src/userscript/components/FavoritesSearchHistory.ts:110-116 | the cleaned term is its kept words joined with single spaces, and empty when none is kept |
| FavoritesSearchHistory.CleanWordsOfEmpty | src/userscript/components/FavoritesSearchHistory.ts:114 | the empty term keeps no word |
| FavoritesSearchHistory.TrimAllOfTrimmed | src/userscript/components/FavoritesSearchHistory.ts:113 | trimming words that are their own trim changes nothing |
| FavoritesSearchHistory.CleanWordsOfJoined | src/userscript/components/FavoritesSearchHistory.ts:110-116 | cleaning words that are already clean, joined by single spaces, gives back those words |
| FavoritesSearchHistory.CleanTermIdempotent | src/userscript/components/FavoritesSearchHistory.ts:110-116 | `cleanTerm` of a cleaned term is that term |
| UserscriptNetwork.UploadResult | src/userscript/network.ts:34-38 | `upload` succeeds exactly when the status is 200, and otherwise reports the status |
| UserscriptNetwork.NotDownloaded | src/userscript/network.ts:52-55 | the kept ids are exactly the input ids absent from the server's list |
| UserscriptNetwork.NotDownloadedKeepsOrder | src/userscript/network.ts:54 | the filter keeps the input order and keeps a list none of whose ids is on the server |
| UserscriptNetwork.CheckIfDownloaded | src/userscript/network.ts:57-60 | the id comes back exactly when it is not downloaded, and `null` exactly when it is |
| UserscriptNetwork.Doubled | src/userscript/network.ts:100 | doubling a positive delay never makes it smaller |
| UserscriptNetwork.Delays | src/userscript/network.ts:87-101 | the waits of a run are the starting delay doubled once per earlier failure |
| UserscriptNetwork.FirstSuccess | src/userscript/network.ts:89-98 | the first attempt below `MAX_RETRIES` that succeeds, with every earlier attempt failing; none when all five fail |
| UserscriptNetwork.Throttle.constructor | src/userscript/network.ts:12-13 | the delay starts at 100 and the streak at 0 |
| UserscriptNetwork.Throttle.RecordSuccess | src/userscript/network.ts:92-96 | a success increments the streak, and on reaching five resets it to 0 and multiplies the delay by 0.9, so the streak stays in `[0, 4]` |
| UserscriptNetwork.Throttle.RecordFailure | src/userscript/network.ts:99-100 | a failure resets the streak to 0 and doubles the delay |
| UserscriptNetwork.Throttle.Retry | src/userscript/network.ts:86-104 | `retry` calls `fetch` at most five times and returns the first success, failing after five failures; it waits once before the first call and once after each failure, each wait the delay at that point; the streak and delay end as the successes and failures leave them |
| UserscriptNetwork.FiveSuccesses | src/userscript/network.ts:92-96 | five single-attempt successes from a zero streak end with the streak at 0 and the delay multiplied by 0.9 once |
| UserscriptFetcher.Pow | src/userscript/fetcher.ts:2-3 | `BACKOFF_MULTIPLIER ** k` is at least 1 |
| UserscriptFetcher.BackoffSchedule | src/userscript/fetcher.ts:2-3 | the waits after attempts 1 to 5 are 100, 200, 400, 800 and 1600 ms |
| UserscriptFetcher.FirstAccepted | src/userscript/fetcher.ts:48-60 | the first attempt up to five whose response has a status outside 429, 500, 502, 503 and 504, with every earlier attempt thrown or retried; none when there is no such attempt |
| UserscriptFetcher.GetWithRetry | src/userscript/fetcher.ts:47-61 | `getWithRetry` returns the first accepted response, a thrown fetch counting as a retried one, and fails after five attempts; the wait after failed attempt `k` is `100·2^(k-1)` ms, including after the fifth |
| UserscriptFetcher.AllAttemptsFail | src/userscript/fetcher.ts:48-60 | when every attempt fails there are five waits, 100 to 1600 ms, and then the error |
| UserscriptFetcher.DocumentType | src/userscript/fetcher.ts:25-36 | a missing or empty content type is an error, a type that is not one of the five supported strings exactly is an invalid document, and otherwise the document is parsed with that type |
| UserscriptFetcher.MediaType | src/userscript/fetcher.ts:25-28 | the media type holds no `;` and no surrounding white space, and is the whole header trimmed when the header has no `;` |
| UserscriptFetcher.FetchDocument | src/userscript/fetcher.ts:22-39 | with no accepted attempt the result is the retry error; otherwise it succeeds exactly when the accepted response's content type passes the check, and fails with that check's error; a document is parsed only from the first accepted attempt with a supported media type; the waits are those of `getWithRetry` |
| UserscriptFetcher.SupportedTypeShape | src/userscript/fetcher.ts:8-14 | the supported types hold no `;` and no surrounding white space |
| UserscriptFetcher.DocumentTypeWithParameters | src/userscript/fetcher.ts:25-36 | a supported type surrounded by spaces and followed by parameters is read as that type |
| UserscriptFetcher.IdsFromDom | src/userscript/fetcher.ts:41-45 | `getIdsFromDOM` returns the anchors' post ids in reverse document order |
| UserscriptFetcher.AnchorPostId | src/userscript/fetcher.ts:43 | an anchor id of at most one character gives no number, and one whose text after the first character is all digits gives the value of those digits |
| UserscriptFetcher.AnchorPostIds | src/userscript/fetcher.ts:41-44 | each anchor's post id is its id without the first character, parsed as a decimal integer |
| UserscriptFetcher.AnchorPostIdOfRendered | src/userscript/fetcher.ts:41-44 | an anchor id made of one character and a rendered number gives that number back |
| UserscriptDownloader.SyncStart | src/userscript/downloader.ts:24-29 | `sync` starts from `max(difference, 500)`: at least 500 and at least the number of missing favorites |
| UserscriptDownloader.Offsets | src/userscript/downloader.ts:31-43 | the visited offsets start one page below the start, clamped at 0, and end with 0 |
| UserscriptDownloader.OffsetsDescend | src/userscript/downloader.ts:31-43 | the offsets strictly decrease and are never negative |
| UserscriptDownloader.OffsetsClosedForm | src/userscript/downloader.ts:32 | the `i`-th offset is the start minus `50·(i+1)`, clamped at 0 |
| UserscriptDownloader.OffsetsCount | src/userscript/downloader.ts:31-43 | a start of at most 50 visits one page, and a larger one the ceiling of start over 50 |
| UserscriptDownloader.SyncChecksTenPages | src/userscript/downloader.ts:27-32 | `sync` visits at least ten pages, as its comment intends |
| UserscriptDownloader.DownloadedOf | src/userscript/downloader.ts:59 | the server lists exactly the given ids it already holds |
| UserscriptDownloader.PageUploads | src/userscript/downloader.ts:35-36 | the ids of a page to upload are exactly the page's ids not on the server |
| UserscriptDownloader.Plan | src/userscript/downloader.ts:31-43 | what a run uploads, page after page, never includes an id the server held before |
| UserscriptDownloader.IdCountIsPagesTotal | src/userscript/downloader.ts:61-70 | the `fullSync` counter over the visited pages is the total number of ids on them, skipped ids included |
| UserscriptDownloader.NotDownloadedIsFilter | src/userscript/downloader.ts:35 | `filterForNotDownloaded` keeps the page's ids that are not on the server |
| UserscriptDownloader.VisitStep | src/userscript/downloader.ts:31-43 | one iteration of the do-while visits the next offset and leaves the rest of the schedule, ending right after offset 0 |
| UserscriptDownloader.PlanStep | src/userscript/downloader.ts:38-43 | uploading the ids of one page in order advances through the plan |
| UserscriptDownloader.CheckPage | src/userscript/downloader.ts:34-36 | the checked page yields the ids to upload, last-listed first |
| UserscriptDownloader.MissingIsPageUploads | src/userscript/downloader.ts:57-62 | reversing a page and dropping what the server lists gives that page's uploads |
| UserscriptDownloader.UploadPage | src/userscript/downloader.ts:38-42 | the uploads stop at the first status other than 200; every id before it was uploaded |
| UserscriptDownloader.Sync | src/userscript/downloader.ts:17-46 | without a failure `sync` visits exactly the offset schedule from its start and uploads exactly the plan; a failed upload stops the run with a prefix of both; every uploaded id got status 200 |
| UserscriptDownloader.SyncTurn | src/userscript/downloader.ts:32-42 | one pass of the loop body moves 50 back, clamped at 0, takes the page's ids the server lacks in reversed page order, and uploads them in order until one fails, each earlier one with status 200 |
| UserscriptDownloader.SyncStep | src/userscript/downloader.ts:31-43 | one turn of the do-while loop visits the next offset of the schedule, and the ids it uploads come next in the plan, the failing one included, all with status 200 before it |
| UserscriptDownloader.UploadMissing | src/userscript/downloader.ts:61-70 | the `fullSync` inner loop uploads, in order, the page's ids the server does not list, and stops at the first failure |
| UserscriptDownloader.NotDownloadedStep | src/userscript/downloader.ts:61-70 | one more id of the page is skipped when the server listed it and is otherwise the next id to upload |
| UserscriptDownloader.MissingIsPlanned | src/userscript/downloader.ts:56-70 | the ids `fullSync` uploads from one page are the ones `sync` would upload, so both follow the same plan |
| UserscriptDownloader.MissingStep | src/userscript/downloader.ts:56-71 | one page of `fullSync` advances through the plan |
| UserscriptDownloader.MissingFailStep | src/userscript/downloader.ts:61-70 | a failure within a page leaves a prefix of the plan uploaded |
| UserscriptDownloader.FullSync | src/userscript/downloader.ts:48-74 | without a failure `fullSync` visits `total-50, total-100, …, 0`, at least one page, uploads exactly the plan, and its counter ends at the number of ids on the visited pages; a failure stops it with a prefix; every uploaded id got status 200 |
| UserscriptDownloader.FullSyncStep | src/userscript/downloader.ts:53-71 | a `fullSync` turn without failure visits the next offset, its uploads come next in the plan and its counter grows by the ids on the page |
| UserscriptDownloader.FullSyncFailStep | src/userscript/downloader.ts:53-71 | a `fullSync` turn that fails visits the next offset, and its uploads and the failing id come next in the plan |
| UserscriptDownloader.PlannedAreMissing | src/userscript/downloader.ts:35-42 | nothing uploaded was on the server when the run started |
| UserscriptDownloader.ReplaceChar | src/userscript/downloader.ts:158 | `replaceAll(" ", "_")` replaces each space and keeps every other character |
| UserscriptDownloader.TagName | src/userscript/downloader.ts:154-158 | a tag name holds no space and starts and ends with no white space |
| UserscriptDownloader.KindOfClasses | src/userscript/downloader.ts:159-161 | the kind is the rest of a class starting with `tag-type-`, and there is none exactly when no class starts so |
| UserscriptDownloader.ReadTags | src/userscript/downloader.ts:152-163 | each element is read into its name and kind, in order |
| UserscriptDownloader.Kept | src/userscript/downloader.ts:147-149 | `tagFilter` keeps exactly the read tags with a non-empty name and one of the five kinds |
| UserscriptDownloader.KeptTags | src/userscript/downloader.ts:113-118 | every kept tag has a non-empty name without spaces and one of the five kinds |
| UserscriptDownloader.KeptTagsMembers | src/userscript/downloader.ts:151-164 | a tag is kept exactly when some element reads as it and passes the filter |
| UserscriptDownloader.FindIndex | src/userscript/downloader.ts:165 | `findIndex` is the first position with the name, or -1 when there is none |
| UserscriptDownloader.FirstByName | src/userscript/downloader.ts:165 | the dedup keeps exactly the first tag of each name, in their original order, so no name repeats |
| UserscriptDownloader.FirstByNameKeeps | src/userscript/downloader.ts:165 | a tag that is the first of its name is kept, ahead of the later first tags, and the kept tags still have distinct names in first-occurrence order |
| UserscriptDownloader.FirstByNameSkips | src/userscript/downloader.ts:165 | a tag whose name already occurred earlier is dropped without losing any first tag |
| UserscriptDownloader.ImageTags | src/userscript/downloader.ts:151-166 | `getImageTags` returns tags with distinct names |
| UserscriptDownloader.ImageTagsKept | src/userscript/downloader.ts:151-166 | each returned tag passed the filter |
| UserscriptDownloader.ImageTagsCover | src/userscript/downloader.ts:151-166 | every name that passed the filter is returned |
| UserscriptDownloader.FindLink | src/userscript/downloader.ts:139-140 | `find` gives the first link that matches, and none when none does |
| UserscriptDownloader.ImageUrl | src/userscript/downloader.ts:136-144 | a missing link list is an error; the URL is the non-empty `href` of the first link reading `Original image`, and without one it is an error |
| UserscriptDownloader.UserId | src/userscript/downloader.ts:82-86 | a missing or empty `id` parameter is an error; otherwise it is parsed as a decimal integer |
| UserscriptDownloader.UserIdOfRendered | src/userscript/downloader.ts:82-86 | a rendered number as the `id` parameter gives that number |
| UserscriptDownloader.FavoritesCount | src/userscript/downloader.ts:88-95 | a missing or empty count text is an error; otherwise the parsed count plus 1 |
| UserscriptDownloader.FavoritesCountOfRendered | src/userscript/downloader.ts:94 | a rendered count gives that count plus 1 |
| Text.Trim | src/userscript/components/FavoritesSearchHistory.ts:113 | `trim()` removes exactly the leading and trailing white space: what it drops is white space and what it keeps starts and ends with none |
| Text.TrimOffsetAt | src/userscript/components/FavoritesSearchHistory.ts:113 | the first non-space position is the only position with nothing but white space before it and no white space at it |
| Text.TrimLimitAt | src/userscript/components/FavoritesSearchHistory.ts:113 | the end of the last non-space character is the only position with nothing but white space after it and none just before it |
| Text.TrimFixedPoint | src/userscript/components/FavoritesSearchHistory.ts:113 | a text is its own trim exactly when it is empty or starts and ends with no white space |
| Text.TrimIdempotent | src/userscript/components/FavoritesSearchHistory.ts:113 | trimming twice is trimming once |
| Text.TrimPadded | src/upload.rs:199-204 | a word surrounded by white space trims to that word |
| Text.Split | src/userscript/components/SearchEnhancements.ts:30 | `split(" ")` gives at least one piece, and no piece holds the separator |
| Text.JoinSplit | src/userscript/components/SearchEnhancements.ts:30-43 | joining the pieces of a split with the separator gives back the text |
| Text.SplitJoin | src/userscript/components/SearchEnhancements.ts:30-43 | splitting separator-free pieces joined with the separator gives back the pieces |
| Text.SplitAround | src/userscript/fetcher.ts:27 | splitting a text around one separator splits both sides separately |
| Text.SplitNoSeparator | src/userscript/fetcher.ts:27 | a text without the separator splits into itself |
| Text.JoinSnoc | src/userscript/components/FavoritesSearch.ts:29-31 | joining pieces with one more at the end appends the separator and that piece |
| Text.SplitWhitespace | src/search.rs:34 | `split_whitespace` yields non-empty tokens without white space |
| Text.WordOf | src/search.rs:34 | a token ends at the first white space after it, or at the end of the text |
| Text.SplitWhitespaceOfSpaces | src/search.rs:34 | a text of white space only has no tokens |
| Text.SplitWhitespaceCons | src/search.rs:34 | leading white space is skipped, and a word followed by white space or the end is the next token, the rest being the tokens of what follows |
| Text.SplitWhitespaceJoin | src/search.rs:34 | words without white space joined by single spaces split back into exactly those words, in order |
| Text.Word | src/search.rs:34 | a token runs up to the first white space |
| Text.ParseSignedOfPadded | src/downloader/media_processor.rs:253-255 | a number padded with zeros to any width, sign first, reads back as that number |
| Text.PaddedMagnitude | src/downloader/media_processor.rs:253-255 | a rendered number is `-` and digits for a negative number and digits alone otherwise, and the digits denote its magnitude |
| Text.ParseSignedOfNegative | src/downloader/media_processor.rs:253-255 | `-` followed by digits reads back as the negated value of the digits |
| Text.ParseSignedOfDigits | src/downloader/media_processor.rs:253-255 | a non-empty digit string reads back as its value |
| Text.PaddedChars | src/downloader/media_processor.rs:254 | a padded number is digits, with at most a leading `-` |
| Text.DigitsRoundTrip | src/downloader/media_processor.rs:254 | the decimal digits of a number read back as that number |
| Text.IntToString | src/downloader/media_processor.rs:254 | `{}` of an integer is its decimal digits with no leading zero, after a `-` for a negative number, and the digits denote its magnitude |
| Text.FormatZeroPadded | src/downloader/media_processor.rs:254 | `{:0w}` is as long as the width or the unpadded rendering, whichever is longer, and is the unpadded rendering when that already fills the width |
| Text.ParseI64 | src/upload.rs:200-204 | `parse::<i64>()` only returns values in the `i64` range |
| Text.ParseI64OfIntToString | src/upload.rs:200-204 | every `i64` written in decimal parses back to itself |
| Text.JsParseInt | src/userscript/downloader.ts:85 | `Number.parseInt(s, 10)` gives a number exactly when digits follow the leading white space and an optional sign |
| Text.JsParseIntOfIntToString | src/userscript/downloader.ts:85 | every integer written in decimal parses back to itself |
| Text.JsParseIntOfDigits | src/userscript/downloader.ts:85 | `parseInt` of a run of digits is their value |
| Text.JsParseIntOfNegative | src/userscript/downloader.ts:85 | `parseInt` of `-` and a run of digits is the negated value |

## Left out

- Database I/O, connection pools and `anyhow` error texts. Where a failed statement changes what the caller sees, it is an explicit failure parameter: `failAt` (the index of the first failing statement) in `Upload.Database.InsertPost`, the set of failing steps in `Migrations.Database.RunMigrations`, and `insertFails` in `DownloaderApi.ApiState.ReceivePosts`.
- DownloaderDatabase.Store.InsertPosts: modelled as a statement that succeeds; its failure is modelled one level up, in `DownloaderApi.ApiState.ReceivePosts`, where `?` turns it into the error reply.
- DownloaderDatabase.Store.InsertDownload: a database error on this statement is not modelled; the statement always succeeds.
- DownloaderApi.ApiState.PostCount: a database error of `COUNT(1)` (the `?` in `post_count`) is not modelled; the reply is always the count.
- `downloads.post_id` is assumed nullable: the schema is not in the source. `DownloaderDatabase.Store.InsertDownload` stores NULL for an unknown remote id, and `DownloaderDatabase.NullDownloadHidesEveryPost` depends on that. With a NOT NULL column that insert would fail instead. The worker looks the id up with `get_internal_post_id` first, so it does not reach this case.
- `post_tags` is assumed to have no unique key: the schema is not in the source. A re-upload of a known post inserts its association rows again, and `Search.ReuploadHidesPost` shows the consequence for searches. With a unique key on (post_id, tag_id) that re-upload would instead fail and roll back. `Search.FoundIffAllTermsPresent` assumes no repeated association row.
- The contents of the migration file: `MIGRATIONS` has one entry, and each migration is abstract, identified by its index.
- The row order of `RETURNING`: `DownloaderDatabase.Store.InsertPosts` returns the new ids in insertion order.
- Schema constraints not shown in the source: `remote_id` and `external_id` are unique, as the `ON CONFLICT` clauses and lookups need, and rowids grow.
- The `tags_with_uses` view is a given list of rows. Its contents and order are not modelled.
- `LIKE` case folding and the `%`/`_` wildcards inside a term: `'%term%'` is modelled as substring containment.
- `GROUP BY p.external_id` in `Database::search` is treated as grouping by post, which is the same when external ids are unique.
- Several files of different revisions disagree and are not reconciled:
  - `remote_id` against `external_id`;
  - the `sort_id` column;
  - `get_page(limit, offset)` against its caller `get_page(&query)`;
  - `POSTS_PER_PAGE` and `PageQuery`, imported from `src/web/database.rs` but not defined there: `POSTS_PER_PAGE` is the parameter `perPage > 0` of `WebRoutes.Paginate`.
- The file-name helper and `mini_thumb`, which `src/search.rs` imports but which do not exist in `src/media_processor.rs`: the name is modelled as `{id:07}_{external_id}.{extension}`. `mini_thumb` (a `magick` resize) is not modelled, so `serve_mini` is covered only through its source-path choice, `Search.SourcePath`.
- Response streaming, `File::open` failures after the existence check, axum routing, CORS, startup, signals and the downloader's worker pool: these are concurrency and plumbing.
- Subprocesses and libraries: ffmpeg, ffprobe, vips, magick, the `image` crate and the `infer`/`guess_format` signature tables. Their results are parameters: kind, mime, extension, sizes and success flags.
- Which extension string `infer` reports for a format is not modelled. If it reports JPEG as `jpg` rather than the blacklist's `jpeg`, a detected JPEG above 3 MiB is compressed by `MediaProcessor` as written. The model states the blacklist on the extension string only.
- The thumbnail timestamp `duration * 0.1` and any partial output a failed subprocess leaves behind.
- The asynchronous `remove_file` spawned by the cleanup guards: the deletion is modelled as immediate.
- The `rename`-then-copy mechanics of `move_file`: only its outcome is modelled, as a parameter.
- Temporary-file auto-deletion and multipart streaming into temporary files: `Upload.FromMultipart` works on the parsed field sequence.
- Floating point: the userscript's delay is a `real`. Its jitter `Math.random() * 30` and the sleeping itself are left out, and the waits are returned as a list instead.
- DOM and VanJS glue, localStorage and JSON loading, the 250 ms `debounce`, mouse handlers, the result dialog and the progress-state UI objects.
- `syncSingle`, which is one `getPostData` and one `upload`.
- Failures of `getPostData`, `fetchImage` and `fetchDocument` inside the sync loops: a failed post upload is the only failure these loops model.
- `UserscriptDownloader.Sync`: its `downloaded` counter is modelled as `|uploaded|`, the number of ids uploaded.
- `UserscriptDownloader.Sync`: the promise that uploaded ids were not on the server is proved separately by `UserscriptDownloader.PlannedAreMissing` about the plan, rather than in the method's own ensures.
- `UserscriptDownloader.Sync`: the favorites page of an offset is a function of the offset. An anchor id that does not parse (`NaN` in JavaScript) is outside that model.
- `UserscriptDownloader.Sync` and `UserscriptDownloader.FullSync`: the `server` set grows only by what the run uploads. Downloads made by other clients during a run are not modelled.
- The `setSearch` export, which `FavoritesSearchHistory.ts` imports but `FavoritesSearch.ts` does not define. Choosing a history entry is not modelled.
- `UserscriptNetwork.Throttle.Retry`: the fetch is a function from attempt number to success; the response value is not modelled, only which attempt succeeded.
- Text.JsParseInt: the result is an unbounded integer, while JavaScript numbers are doubles that lose precision above 2^53. Strings are modelled as sequences of Unicode scalar values, not UTF-16 code units.
- The build scripts.
- WebRoutes.Paginate: integers are unbounded, so the `i64` sums `desired_start + button_count - 1` and `start + button_count - 1` (src/web/routes.rs:98,106) cannot overflow in the model; they could for a `button_count` near `i64::MAX`, which no caller passes (the gallery passes 5).

## Findings

| source | as written | input that shows it | evidently intended | confidence | as-written member | corrected member |
|---|---|---|---|---|---|---|
| src/downloader/image_file.rs:32-42 | `ImageFile::new` builds the value with `should_cleanup = true` and no extension, then returns early with `?` when `image_info` or `metadata` fails. The drop runs `cleanup`, which calls `image_path`, then `file_name`, then `extension.expect(...)`, and panics. | a temporary file shorter than 64 bytes, so `read_exact` in `image_info` fails | the error is returned with nothing to clean up | not executed | DownloaderImageFile.NewAsWritten, DownloaderImageFile.NewPanicsOnShortHeader | DownloaderImageFile.New |

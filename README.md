# File-sharing app: upload protocol, sync CLI trees and client helpers in Dafny

This project models the core of a multi-tenant file-sharing web application. Users keep
files in repositories. Large files are uploaded in chunks to a resumable `/send/*` route,
and thumbnails are rendered on demand and cached. A command-line client keeps a local
folder in sync with a repository. The modelled parts are:

- **Chunk receiver** (`UploadReceiver`, upload_receiver.dfy). This is the `/send/*` route.
  - The table of transfers in progress is a class (`TransferTable`) over a map from
    transfer token to session, plus the temporary directory as a map from file name to
    contents.
  - A request runs as permission check, token minting, data fragments, then the
    end-of-body decision (202 / 400 / 413 / 201 / 200).
  - The pure function `Request` gives the table, the reply and the finalizer call after
    one request. The class's `Send` method is proved to leave exactly that state, so
    lemmas about several consecutive requests (`Replay`) speak about `Send` as well.
  - What is proved: the received size always counts the bytes hashed and appended to the
    temp file; a minted token names no existing temp file; the finalizer gets exactly the
    declared bytes; after a 413 every later request on the token gets 413; a transfer
    finalizes on the request that brings its last byte.
- **Thumbnail route** (`Thumbnail`, thumbnail.dfy). It is a cache-first decision over the
  mimetype. The cache is a set of file ids. Renderers are represented by their outcome.
- **Upload driver** (`BatchUpload`, batch_upload.dfy). This is the browser's
  `send_file_by_chunks` loop, with the server's replies as input.
  - Windows of at most 200 MiB cover the file in order.
  - The loop ends after at most `ceil(size / 200 MiB) + 1` requests, whatever the server
    answers.
  - A 201 reply's body becomes the file id of later requests.
  - Only truthy metadata entries become headers.
- **Sync CLI trees** (`Filesystem`, filesystem.dfy). `RemoteFilesystem` is an index by id
  with children sets. `LocalFilesystem` is the tree scanned from disk, with parent links.
  Both support lookup by path components. `LocalFilesystem` also supports root removal
  by name and the parent-link repair run after deserialization.
- **Sync CLI commands** (`Actions`, actions.dfy). `push` and `status` are order-preserving
  filters over the sixteen diff actions, followed by `apply_actions`.
- **Cookies** (`Cookies`, cookies.dfy). This covers the `document.cookie` parser
  (`CookieString`) and the application's cookies (`AppCookies`): the authentication token
  and the list of recently opened repositories, whose round trip through its `.`-separated
  text is proved.
- **Database value sanitisers** (`DbUtils`, db_utils.dfy) and **mimetype helpers**
  (`MimeUtils`, mime_utils.dfy).

Two support modules are shared by the others:

- `Strings` (strings.dfy): JavaScript's `split`, `join` and `filter(Boolean)` on strings.
- `JsValues` (js_values.dfy): JavaScript values, truthiness, `trim`, ASCII `toLowerCase`
  and `Number` on decimal text.

## Model

| member | source | states |
|---|---|---|
| DbUtils.AsHashKey | server/db_utils.js:3-7 | accepted exactly when every character is in `[A-Za-z0-9$./_-]`, and then the key is returned unchanged; otherwise the assertion fails |
| DbUtils.AsId | server/db_utils.js:8-13 | `null` exactly for a falsy id; an assertion failure exactly for a truthy non-numeric id; otherwise the numeric value |
| DbUtils.AsIdDecimal | server/db_utils.js:8-13 | the decimal text of any natural number reads back as that number |
| DbUtils.AsBoolean | server/db_utils.js:44-46 | false exactly for `undefined`, `null`, `false`, `0` and `""` |
| DbUtils.AsEnum | server/db_utils.js:49-53 | accepted exactly when the input is made of `[A-Za-z0-9-_]` |
| DbUtils.AsEnumLowercases | server/db_utils.js:49-53 | an accepted value is the input lower-cased, with no upper-case letter left; the trim removes nothing |
| DbUtils.AsEnumIdempotent | server/db_utils.js:49-53 | an accepted value is accepted again and maps to itself |
| DbUtils.AsPath | server/db_utils.js:78-81 | the result is non-empty and starts with `/` |
| DbUtils.AsPathShape | server/db_utils.js:78-81 | the result starts with `/`; it is `/` exactly when the input has no non-empty segment; otherwise its segments are the input's non-empty segments, in order |
| DbUtils.AsPathIdempotent | server/db_utils.js:78-81 | `as_path(as_path(p)) == as_path(p)` |
| DbUtils.AsDataPath | server/db_utils.js:30-42 | the in-place loop over the split segments computes the specification `DataPath`: `''` for a falsy input, an assertion failure for a bad encoded segment, else `/` and the non-empty encoded segments joined by `/` |
| DbUtils.DataPathShape | server/db_utils.js:30-42 | the result is empty exactly when the input is falsy or has only empty segments; otherwise it is `/` followed by non-empty segments drawn from the encoded charset |
| DbUtils.DisplayNameToUrl | server/db_utils.js:58-67 | a url name is non-empty and made of `[A-Za-z0-9-_]` |
| DbUtils.ReplacementsPerChar | server/db_utils.js:59-62 | the four replacements map space to `-` and `.`, `,`, `;` to `_`, character by character, keeping the length |
| DbUtils.DisplayNameAccepted | server/db_utils.js:58-67 | a non-empty name of letters, digits, `-`, `_`, space, `.`, `,`, `;` always gets a url name, which is the per-character rewrite |
| DbUtils.DisplayNameIdempotent | server/db_utils.js:58-67 | a url name is its own url name |
| MimeUtils.IsValid | public/scripts/mime_utils.js:3-15 | valid exactly when present and not `''`, `'undefined'` or `'null'` |
| MimeUtils.HasThumbnail | public/scripts/mime_utils.js:17-27 | only a valid mimetype has a thumbnail |
| MimeUtils.HasThumbnailIff | public/scripts/mime_utils.js:17-27 | a thumbnail exists exactly for `image` and `video`, alone or followed by `/` |
| MimeUtils.IconPath | public/scripts/mime_utils.js:29-48 | an invalid mimetype, or an empty icon table, gets the no-mime icon |
| MimeUtils.IconPathOrigin | public/scripts/mime_utils.js:29-48 | the icon is the no-mime icon, some category's base icon, or some category's subtype icon |
| MimeUtils.IconPathUnknown | public/scripts/mime_utils.js:30-38 | an invalid mimetype, or an unknown category, gets the no-mime icon |
| MimeUtils.IconPathKnown | public/scripts/mime_utils.js:33-47 | for `category/subtype` of a known category: the subtype's icon when listed and non-empty, else the category's base icon |
| MimeUtils.IconPathNoSubtype | public/scripts/mime_utils.js:33-47 | a mimetype without `/` looks its subtype up under the name `undefined` |
| UploadReceiver.OrDefault | server/routes-v2/user/repos/root.js:211-212 | `v \|\| fallback`: a truthy value is kept, anything else is replaced by the fallback |
| UploadReceiver.NewMetadata | server/routes-v2/user/repos/root.js:205-217 | the new session's file id is the token; mimetype and virtual path are never falsy; a present size header is read by `Number` |
| UploadReceiver.NewMetadataDefaults | server/routes-v2/user/repos/root.js:186-217 | a missing or empty size header declares 0 bytes and an undecodable one NaN; an empty name, timestamp or description is recorded as `null`; mimetype defaults to `application/octet-stream` and path to `/` |
| UploadReceiver.HeaderValue | server/routes-v2/user/repos/root.js:187-195 | `null` for an absent or empty header, `undefined` when decoding throws, else the decoded text; truthy exactly for non-empty text |
| UploadReceiver.Request | server/routes-v2/user/repos/root.js:178-245 | the table, reply and finalizer call after one request: an anonymous caller gets no reply and a user without permission 403, both with the table unchanged and no call; a finalizer call names the request's token, whose session is deleted, and hands over its temp file |
| UploadReceiver.MintToken | server/routes-v2/user/repos/root.js:200-204 | the token is the first random draw that does not name a temp file |
| UploadReceiver.EndOfBody | server/routes-v2/user/repos/root.js:232-243 | finalize exactly when received equals declared (202 with the id, or 400); 413 exactly when more arrived; otherwise 201 with the token when this request minted it, else 200 |
| UploadReceiver.RequestConsistent | server/routes-v2/user/repos/root.js:178-245 | every request keeps each session's received size equal to its hashed bytes and its temp file equal to them (empty file for a 0-byte transfer), given a minted token names no temp file; a finalized transfer's temp file holds exactly the hashed bytes, as many as declared |
| UploadReceiver.RequestParts | server/routes-v2/user/repos/root.js:221-244 | a request past the token check: the temp file gets the fragments (after truncation for a 0-byte transfer), the reply is the end-of-body decision on the old size plus the fragments, and the session is deleted exactly when it finalizes, else updated |
| UploadReceiver.RequestEffect | server/routes-v2/user/repos/root.js:178-245 | an anonymous caller (no reply), a user without permission (403) or an unknown token (no reply) change nothing; otherwise the transfer is finalized exactly when its received size reaches the declared one and its session is then deleted, else the session gains the new bytes in size and hash; 413 exactly when more than declared arrived; the temp file is what was kept (nothing for a 0-byte transfer) plus the new bytes; other files are unchanged |
| UploadReceiver.OverflowStep | server/routes-v2/user/repos/root.js:225-238 | a 413 leaves the transfer in the table, overflowed; a request on an overflowed transfer gets 413 and leaves it overflowed with the same metadata |
| UploadReceiver.ReadyRequest | server/routes-v2/user/repos/root.js:225-244 | the `data` events followed by the `end` event give the table, reply and finalizer call of `Request` |
| UploadReceiver.OverflowPersists | server/routes-v2/user/repos/root.js:225-238 | an overflowed transfer stays in the table, overflowed and with the same metadata, through any number of requests on its token, each answered 413 |
| UploadReceiver.OverflowIsFinal | server/routes-v2/user/repos/root.js:225-238 | a request answered 413 finalizes nothing, and every later request on the same token is answered 413 |
| UploadReceiver.FinalizesOnLastByte | server/routes-v2/user/repos/root.js:225-244 | on a known transfer that does not overflow: the request bringing the last byte hands the previously hashed bytes plus its data to the finalizer, deletes the session and answers 202 or 400; an earlier one answers 200 and records the bytes |
| UploadReceiver.UploadInTwoRequests | server/routes-v2/user/repos/root.js:178-245 | a file sent in two requests: the first gets 201 with the minted token; the second, carrying it, finalizes with both requests' bytes in order when it completes the file, else gets 200 |
| UploadReceiver.TransferTable.Begin | server/routes-v2/user/repos/root.js:183-223 | an anonymous caller throws (reading the user's id) with nothing changed; a user without upload permission is refused with nothing changed; a new session with size 0 and a fresh token when no token is sent; an unknown token throws with nothing changed; a 0-byte transfer gets an empty temp file; the session invariant is kept |
| UploadReceiver.TransferTable.OnData | server/routes-v2/user/repos/root.js:225-229 | a fragment raises the received size by its length and is appended to both the hashed bytes and the temp file, keeping the invariant |
| UploadReceiver.TransferTable.OnEnd | server/routes-v2/user/repos/root.js:231-244 | the reply is the end-of-body decision; a complete transfer hands the temp file, whose contents are the hashed bytes, to the finalizer and deletes the session |
| UploadReceiver.TransferTable.ReceiveBody | server/routes-v2/user/repos/root.js:225-229 | the loop over the `data` events adds the fragments' bytes to the received size, the hashed bytes and the temp file, keeping the invariant |
| UploadReceiver.TransferTable.Transfer | server/routes-v2/user/repos/root.js:225-244 | the `data` events then the `end` event leave the table, reply and call of `Request` |
| UploadReceiver.TransferTable.Send | server/routes-v2/user/repos/root.js:178-245 | the whole request leaves exactly the table, reply and finalizer call of `Request` on the old table: no reply for an anonymous caller; 403 for a user without permission; no reply for an unknown token; a minted token is the first free draw; the finalizer receives exactly the declared number of bytes, which are the bytes hashed, and the session is gone; after a 413 the session is still there and overflowed, so the next `Send` carrying its token gets 413 again |
| Thumbnail.Dispatch | server/routes-v2/user/repos/root.js:264-331 | the cache is used exactly when cached; the pdf icon only on Windows for a pdf type; the image renderer only for `image/`, the video renderer only for a non-pdf `video/`; the original only when neither prefix matches |
| Thumbnail.CacheFirst | server/routes-v2/user/repos/root.js:264-331 | a cached thumbnail is served whatever the mimetype |
| Thumbnail.DispatchPriority | server/routes-v2/user/repos/root.js:264-331 | image prefix, then `pdf` anywhere, then video prefix, else the original; the pdf icon exactly on Windows |
| Thumbnail.DispatchImageBeforePdf | server/routes-v2/user/repos/root.js:265-280 | `image/pdf` is rendered as an image |
| Thumbnail.DispatchPdfBeforeVideo | server/routes-v2/user/repos/root.js:280-302 | `video/x-pdf` goes to the pdf renderer |
| Thumbnail.DispatchPdfOnWindows | server/routes-v2/user/repos/root.js:280-283 | `application/pdf` on Windows gets the pdf icon |
| Thumbnail.DispatchOther | server/routes-v2/user/repos/root.js:264-329 | `text/plain` is served as the original |
| Thumbnail.Serve | server/routes-v2/user/repos/root.js:254-331 | 404 exactly for an unknown file; the cache is unchanged or grows by the requested file, and then that file's thumbnail is served; the pdf icon only on Windows |
| Thumbnail.ServeNotFound | server/routes-v2/user/repos/root.js:254-256 | an unknown file gets a 404 and the cache is unchanged |
| Thumbnail.ServeCacheGrowth | server/routes-v2/user/repos/root.js:254-331 | the cache only grows, and only by the requested file; a thumbnail is served only for the requested file once it is cached |
| Thumbnail.RenderFailureServesOriginal | server/routes-v2/user/repos/root.js:271-322 | a failing renderer falls back to the original file and caches nothing |
| Thumbnail.SecondRequestFromCache | server/routes-v2/user/repos/root.js:264-331 | after a thumbnail was served, the next request for that file is served from the cache whatever the renderers do |
| BatchUpload.TruthyEntries | public/scripts/fileshare/upload/batch_upload.js:63-67 | an entry is kept exactly when its value is truthy |
| BatchUpload.Headers | public/scripts/fileshare/upload/batch_upload.js:63-67 | every header is a metadata entry with a truthy value, and there are no more headers than entries |
| BatchUpload.HeadersTruthy | public/scripts/fileshare/upload/batch_upload.js:63-67 | headers are the truthy metadata entries; no file id is sent before a 201, and no size for an empty file |
| BatchUpload.Run | public/scripts/fileshare/upload/batch_upload.js:23-45 | the first request sends the current window; the loop waits exactly when the replies ran out |
| BatchUpload.WindowFacts | public/scripts/fileshare/upload/batch_upload.js:36-37 | windows lie inside the file, are at most 200 MiB long, and each starts where the previous one ended |
| BatchUpload.RunWindows | public/scripts/fileshare/upload/batch_upload.js:23-45 | started at window `j`, the `i`-th request sends window `j + i` |
| BatchUpload.UploadWindows | public/scripts/fileshare/upload/batch_upload.js:8-45 | the `i`-th request sends `[min(i·B, size), min((i+1)·B, size))`; consecutive requests are contiguous |
| BatchUpload.WindowsCover | public/scripts/fileshare/upload/batch_upload.js:36-37 | the first `n` windows cover `[0, min(n·B, size))` |
| BatchUpload.BlocksPartitionFile | public/scripts/fileshare/upload/batch_upload.js:8-37 | the first `ceil(size/B)` windows are non-empty and add up to the file; later ones are empty |
| BatchUpload.RunContinuesOnlyBeforeEnd | public/scripts/fileshare/upload/batch_upload.js:29-37 | a request is followed by another only when it still had bytes to send |
| BatchUpload.UploadTerminates | public/scripts/fileshare/upload/batch_upload.js:23-45 | at most `ceil(size/B) + 1` requests, whatever the server answers |
| BatchUpload.FileIdForwarded | public/scripts/fileshare/upload/batch_upload.js:26-27 | after a 201 the next request carries the reply's body as file id; nothing else in the metadata changes |
| BatchUpload.RunOutcome | public/scripts/fileshare/upload/batch_upload.js:29-44 | every reply before the last was 200/201; `Completed` ends on 202, `Failed` on any other status, and the wrong-result stop on a 200/201 at the end of the file |
| BatchUpload.ProgressBounds | public/scripts/fileshare/upload/batch_upload.js:25 | reported progress never exceeds the size, in every request including the last, and never goes back between requests |
| BatchUpload.FourHundredFiftyMiB | public/scripts/fileshare/upload/batch_upload.js:7-45 | a 450 MiB file answered 201, 200, 202 goes out as 0-200, 200-400 and 400-450 MiB, the last two with the token |
| BatchUpload.SendFileByChunks | public/scripts/fileshare/upload/batch_upload.js:7-46 | the loop produces exactly the requests and outcome of `Upload` |
| BatchUpload.UploadBatch | public/scripts/fileshare/upload/batch_upload.js:1-5 | files are uploaded one after another in batch order; only the last trace may still be waiting |
| Filesystem.StripDots | crates/client-cli/src/content/filesystem.rs:57-62 | `Empty path` for no components; `Invalid path` for only `.`; otherwise the first component that is not `.` and the rest |
| Filesystem.StripLeadingDot | crates/client-cli/src/content/filesystem.rs:60-62 | a leading `.` changes nothing once a real component follows |
| Filesystem.Insert | crates/client-cli/src/content/filesystem.rs:31-35 | set insertion: contents are the old ids plus the new one, still without repetition |
| Filesystem.RemoteFilesystem.constructor | crates/client-cli/src/content/filesystem.rs:16-21 | an empty index is valid |
| Filesystem.RemoteFilesystem.AddItem | crates/client-cli/src/content/filesystem.rs:24-39 | the item is stored under its id; a parentless id joins the roots, any other its parent's children set (created if absent); other lookups are unchanged; the index stays valid |
| Filesystem.RemoteFilesystem.FindItem | crates/client-cli/src/content/filesystem.rs:41-43 | the item stored under the id, `None` exactly when there is none |
| Filesystem.RemoteFilesystem.CollectItems | crates/client-cli/src/content/filesystem.rs:48-52 | succeeds exactly when every listed id is stored, and then gives the stored items in order |
| Filesystem.RemoteFilesystem.GetChildren | crates/client-cli/src/content/filesystem.rs:45-54 | no children entry gives no children; otherwise success exactly when every child id is stored, and then the stored children in order |
| Filesystem.GetChildrenTotal | crates/client-cli/src/content/filesystem.rs:45-54 | in a valid index listing children never fails; no children entry gives no children |
| Filesystem.RemoteFilesystem.FindFromPath | crates/client-cli/src/content/filesystem.rs:102-104 | a found item is stored and bears the last path component |
| Filesystem.RemoteFind | crates/client-cli/src/content/filesystem.rs:56-89 | a found item is stored and bears the last path component (intended lookup) |
| Filesystem.RemoteScan | crates/client-cli/src/content/filesystem.rs:64-88 | a found item is stored and bears the last remaining component |
| Filesystem.RemoteFindAsWritten | crates/client-cli/src/content/filesystem.rs:56-89 | the lookup as written finds only stored items |
| Filesystem.RemoteScanAsWritten | crates/client-cli/src/content/filesystem.rs:64-88 | the loop as written finds only stored items |
| Filesystem.RemoteLookupSkipsComponent | crates/client-cli/src/content/filesystem.rs:64-86 | as written, `a/b` resolves to the second root named `a`; the intended lookup finds `b` |
| Filesystem.RemoteLookupsAgree | crates/client-cli/src/content/filesystem.rs:56-89 | the two lookups agree whenever every stored item has a children entry |
| Filesystem.RemoteScansAgree | crates/client-cli/src/content/filesystem.rs:64-88 | the two candidate loops agree whenever every stored item has a children entry |
| Filesystem.RemoteFindFirst | crates/client-cli/src/content/filesystem.rs:64-72 | a one-component path finds the first candidate of that name |
| Filesystem.RemoteScanTo | crates/client-cli/src/content/filesystem.rs:64-68 | unstored or differently named candidates are passed over |
| Filesystem.RemoteNotFound | crates/client-cli/src/content/filesystem.rs:88 | a missing item is an error, not `Ok(None)` |
| Filesystem.LocalFilesystem.FindFromPath | crates/client-cli/src/content/filesystem.rs:244-246 | `Empty path` for no components, `Invalid path` for only `.`; a found item bears the last path component |
| Filesystem.LocalFind | crates/client-cli/src/content/filesystem.rs:159-181 | a found item bears the last path component |
| Filesystem.LocalScan | crates/client-cli/src/content/filesystem.rs:167-180 | a found item bears the last remaining component |
| Filesystem.LocalFindCommits | crates/client-cli/src/content/filesystem.rs:167-178 | the first item named after the component decides the lookup |
| Filesystem.LocalNotFound | crates/client-cli/src/content/filesystem.rs:180 | a missing item is `Ok(None)` |
| Filesystem.LocalNoBacktracking | crates/client-cli/src/content/filesystem.rs:167-177 | a later item of the same name is never tried |
| Filesystem.FixChildrenCorrect | crates/client-cli/src/content/filesystem.rs:216-227 | for unique ids, every item of the subtree is linked to its parent, and links of other ids are unchanged |
| Filesystem.PostDeserializeLinksParents | crates/client-cli/src/content/filesystem.rs:210-227 | for unique ids, every non-root item is linked to the item whose children list holds it; roots and outside ids keep their links |
| Filesystem.RemoveFirstNamedAt | crates/client-cli/src/content/filesystem.rs:195-199 | the first root of the name is removed and the others stay, in order |
| Filesystem.RemoveFirstNamedAbsent | crates/client-cli/src/content/filesystem.rs:195-200 | a name no root bears leaves the roots unchanged |
| Filesystem.LocalFilesystem.constructor | crates/client-cli/src/content/filesystem.rs:108-112 | no roots and no links |
| Filesystem.LocalFilesystem.AddToRoot | crates/client-cli/src/content/filesystem.rs:229-231 | the item is appended to the roots |
| Filesystem.LocalFilesystem.RemoveRoot | crates/client-cli/src/content/filesystem.rs:193-200 | the loop computes `RemoveFirstNamed`: success exactly when it succeeds, with its roots; unchanged on error |
| Filesystem.LocalFilesystem.FixParentsFor | crates/client-cli/src/content/filesystem.rs:216-227 | the links become `FixChildren` of the parent's subtree |
| Filesystem.LocalFilesystem.PostDeserialize | crates/client-cli/src/content/filesystem.rs:210-214 | the links become `FixRoots` of the roots |
| Actions.Positions | crates/client-cli/src/actions/push.rs:13-33 | the listed positions lie inside the diff |
| Actions.PositionsExact | crates/client-cli/src/actions/push.rs:13-33 | positions are increasing and are exactly those of the accepted actions |
| Actions.SelectedPositions | crates/client-cli/src/actions/push.rs:13-33 | the kept list is the diff read at those positions, so an order-preserving subsequence missing no accepted action |
| Actions.SelectedCounts | crates/client-cli/src/actions/push.rs:14-32 | each accepted action is kept as often as the diff holds it, and no other action is kept |
| Actions.SelectedTwice | crates/client-cli/src/actions/status.rs:21-104 | filtering twice is filtering by both tests |
| Actions.StatusWithinPush | crates/client-cli/src/actions/status.rs:21-104 | what `status` applies is also passed on by `push` |
| Actions.Push | crates/client-cli/src/actions/push.rs:13-37 | `apply_actions` is called exactly once, with the filtered list, even when it is empty |
| Actions.SelectionsByKind | crates/client-cli/src/actions/push.rs:14-32 | `push` drops exactly `ErrorRemoteDowngraded`, `RemoteUpgraded`, `RemoteRemoved` and `RemoteAdded`; `status` keeps exactly `ResyncLocal` and `RemovedOnBothSides` |
| Actions.PrintedItem | crates/client-cli/src/actions/status.rs:21-104 | the item whose path is printed: local for `RemovedOnBothSides`, remote for `LocalRemoved`/`RemoteAdded`, scanned otherwise |
| Actions.Status | crates/client-cli/src/actions/status.rs:14-110 | an empty diff applies nothing; an error exactly when some printed item's path cannot be built, naming the first such item, and then nothing is applied; else one call with the kept list, or none when it is empty |
| Actions.StatusNothingToApply | crates/client-cli/src/actions/status.rs:106-108 | a diff without `ResyncLocal` or `RemovedOnBothSides` leads to no call |
| Cookies.ParseSegment | web_client/client/utilities/cookies.js:15-20 | a parsed key and value contain no `=`, and the value is non-empty |
| Cookies.ParseKeyValue | web_client/client/utilities/cookies.js:15-20 | `k=v`, ` k=v` and `k=v=tail` all parse to `(k, v)` |
| Cookies.ParseNoEquals | web_client/client/utilities/cookies.js:16-17 | a segment without `=` is skipped |
| Cookies.ParseEmptyValue | web_client/client/utilities/cookies.js:18-19 | a segment with an empty value is skipped |
| Cookies.ParseCookieText | web_client/client/utilities/cookies.js:8-22 | parsing a `k=v; k=v` text yields the last value of each key, and only keys of the text |
| Cookies.ParsedLastWins | web_client/client/utilities/cookies.js:14-21 | a key's last segment sets its value |
| Cookies.ParsedKeys | web_client/client/utilities/cookies.js:14-21 | every parsed key comes from a segment |
| Cookies.ParsedStep | web_client/client/utilities/cookies.js:14-21 | one more segment sets one more entry |
| Cookies.CookieString.constructor | web_client/client/utilities/cookies.js:8-22 | the loop builds the table `Parsed` of the `;`-separated segments |
| Cookies.CookieString.Set | web_client/client/utilities/cookies.js:24-28 | the entry for the key is replaced; nothing else changes |
| Cookies.CookieString.Read | web_client/client/utilities/cookies.js:30-33 | the stored value, `null` exactly when the key is absent |
| Cookies.ReadAfterSet | web_client/client/utilities/cookies.js:24-33 | a read after `set` gives the value set; other keys are unaffected |
| Cookies.DropOldest | web_client/client/utilities/cookies.js:82-86 | a list longer than 10 loses one entry; a shorter one is unchanged |
| Cookies.Without | web_client/client/utilities/cookies.js:87-90 | the kept entries differ from the id and come from the list |
| Cookies.WithoutCounts | web_client/client/utilities/cookies.js:87-90 | the id no longer occurs; every other entry occurs as often as before |
| Cookies.PushedListProperties | web_client/client/utilities/cookies.js:80-92 | the id is last and occurs once; other entries keep their counts and relative order; at most 11 entries stay at most 11 |
| Cookies.SerializeRoundTrip | web_client/client/utilities/cookies.js:73-95 | a list of non-empty ids without `.` reads back unchanged from its serialisation |
| Cookies.PushedReadBack | web_client/client/utilities/cookies.js:73-95 | the list a push writes reads back as the pushed list |
| Cookies.AppCookies.constructor | web_client/client/utilities/cookies.js:50-64 | token, expiry (only read with a truthy token) and the list text come from the parsed cookies, with `""` for no list |
| Cookies.AppCookies.LastRepositories | web_client/client/utilities/cookies.js:73-75 | entries are non-empty and contain no `.` |
| Cookies.AppCookies.PushLastRepository | web_client/client/utilities/cookies.js:80-97 | the loops write the serialisation of the pushed list, which then reads back as that list; the token is untouched |
| Cookies.AppCookies.Login | web_client/client/utilities/cookies.js:109-115 | a truthy token sets token and expiry; anything else changes nothing |
| Cookies.AppCookies.Logout | web_client/client/utilities/cookies.js:117-122 | token and expiry are deleted; the list is kept |

## Left out

- Everything of server/routes-v2/user/repos/root.js outside `/send/*` and `/thumbnail/*`, the permission check's internals (its answer is a parameter), and `finalize_file_upload` (its result is a parameter, and the model records the call it receives). The model assumes that `finalize_file_upload` leaves the temp file in place: it stays in `tempFiles`, and tokens minted later are drawn against that directory.
- SHA-256 and the random token bytes: the hash state is the sequence of bytes fed to it, and the random draws are a parameter.
- UploadReceiver.TransferTable.Send: an anonymous caller is the parameter `Anonymous`. It throws at line 183 before any reply, as in the source; the rejected promise and Express's handling of it are not modelled beyond "no reply, nothing changed".
- UploadReceiver.TransferTable.Begin: it requires that some draw is free when a token must be minted. The source's `do … while` would loop for as long as random names collide.
- UploadReceiver.TransferTable.Send: byte counting is by `Buffer.byteLength` of byte fragments; string chunks and their encoding are not modelled.
- The concurrency between requests and the event-loop interleaving of `data`/`end` callbacks: one request runs to completion at a time.
- The directory creation, logging and `Content-Disposition` header of the thumbnail route, and the renderers themselves (sharp, gm, ffmpeg): a renderer is its success or failure.
- Thumbnail.Serve: the file lookup `File.from_path` (server/routes-v2/user/repos/root.js:254) is a parameter, and the route is modelled with a working lookup. As written, root.js imports no `File` (its `require`s at lines 5-19), so line 254 throws before any reply is sent. The same holds for `Directories` at lines 96 and 125, which are outside this model.
- Thumbnail.Serve: the video branch reads `req.file.id`, which nothing in the route sets. It is a parameter: when absent, the callback throws and no reply is sent. A pdf render failure replies with the original and leaves the awaited promise pending; the model records only the reply.
- XMLHttpRequest, `encodeURIComponent` of header values, the progress events, and the `index` argument of `try_send_chunk` (never incremented, and unused by the request).
- The upload driver's request URL and header names (`file_name`, …) differ from the ones the server route reads (`content-name`, …). The two sides are modelled separately and not connected.
- Numbers: `Number` and `isNaN` are modelled on trimmed decimal integer text with an optional `+` or `-` sign (the empty string is 0). Fractions, hex, exponent notation and `Infinity` read as NaN here, where JavaScript reads a number: `AsId(Str("1.5"))` is an assertion failure where the source returns 1.5, and a `content-size` of `1e3` declares no size, so that transfer never finalizes in the model. The model's integers are exact, whereas a JavaScript `Number` rounds integers beyond 2^53; a declared size that large is compared exactly here.
- `toLowerCase` is ASCII-only. `trim` removes JavaScript's whitespace and line terminators (`IsJsSpace`). The Unicode normalisation of `display_name_to_url` is a parameter. So is `encodeURIComponent` in `as_data_path` (the `encode` argument of `DataPath`), so the `URIError` it throws on a lone surrogate is not modelled.
- `as_number`, `as_data_string` and `isEncoded` of server/db_utils.js, which the server does not use in the modelled routes.
- The Handlebars icon table is a parameter of `get_mime_icon_path`.
- `CookieString.save`, `AppCookies.save_cookies`, `get_token`, `authentication_headers` and writing `document.cookie`; the clock (`dayjs`) and `APP_CONFIG`.
- Cookies.AppCookies.PushLastRepository: a repository id is a natural number written in decimal.
- `LocalFilesystem::scan_dir`, `from_fileshare_root`, `update_item_from_filesystem` and every disk operation of `remove_item`; the parent case of `remove_item`, whose `remove_child` is in item.rs, which is not part of this model; `get_parent` is not modelled either.
- `get_roots` of both filesystems.
- Lock poisoning (`read().unwrap()` panics) and the `Arc<RwLock<…>>` sharing: items are values, local items are identified by id, and a parent link is a map entry.
- The iteration order of a `HashSet`: candidate ids are a sequence, and the lemmas hold for any order.
- Filesystem.RemoteFilesystem.FindFromPath: it uses the intended lookup; the as-written lookup is `RemoteFindAsWritten` (see Findings).
- Path components: a `PathBuf` is given as the component list `Path::iter` yields for it. Rust's normalisation has already dropped empty components and every `.` after the first component, so those lists have a `.` only at the front. The model accepts any list; for one Rust never yields (an interior `.` or an empty name) it treats the component as an ordinary name. `/` and `..` components are ordinary names in the source too.
- `Repository::new`, `MetaDir::search_here`, `Diff::from_repository`, `apply_actions` and its errors: a run's effect is the list of `apply_actions` calls. The terminal output (`success!`, `println!`) is not modelled.

## Findings

| source | as written | input that shows it | evidently intended | confidence | as-written member | corrected member |
|---|---|---|---|---|---|---|
| crates/client-cli/src/content/filesystem.rs:69-82 | `path_iter.next()` advances the shared iterator even when the matched item has no children entry, so the next candidate of the same name is tried with the following component already consumed | roots `a` (id 1, no children entry) and `a` (id 2, child `b`), iterated in that order; path `a/b` returns the second `a` instead of `b` | a match without children passes to the next candidate with the same remaining path | medium (depends on `HashSet` order); not executed | Filesystem.RemoteFindAsWritten | Filesystem.RemoteFind |

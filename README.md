# LITMARK bookmark backend: a model of the stores, the services and the folder cascade

LITMARK is a REST backend for bookmarks. A user files bookmarks in a tree of folders, tags them with
chips, attaches images, and sees the bookmarks they clicked recently first. This project models its
core with proofs:

- **The knex repositories.** These are the four soft-delete stores for `folders`, `bookmarks`,
  `images` and `chips`.
- **The services that wrap the stores.** They run a read, react to the result and throw the message
  constants.
- **The recursive folder deletion `removeFolder`.**
- **Two pieces of pure string logic.** One extracts the hostname of a bookmark url and builds the
  favicon fallback from it. The other validates an image's `type` and file name.

Every table is a class with a `map` from primary key to row and a serial id counter `nextId`.

- `Valid()` says every row is stored under its own id, and every id is below the counter.
- A `where` clause is a predicate on rows and a select list is a projection to a view datatype.
  `Tables.Query` runs them in primary-key order. `orderBy` is an insertion sort
  (`Tables.SortRows`) by a `SortKey`.
- knex's `update(obj)` writes only the columns present in `obj`. It is modelled as a patch datatype
  whose `None` fields leave a column as it is. The update matches a row whether it is deleted or not,
  and returns the number of rows matched.
- `remove` is the soft delete: it sets `isdeleted` and keeps the row.
- A thrown message constant is the `Err` value of a `Result`; `undefined` is `None`.

The deletion of folder `f` is modelled as a method.

- It loops over the children that `fetchAllByFolderId` lists (in primary-key order in the model; the source's select leaves the order open), calls itself on
  each, then soft-deletes `f` and the bookmarks filed in `f`.
- Its specification is `Cascade.PostOrder`: the folders of `f`'s subtree, children before their
  parent. The method's contract says the tables end up as `Cascade.CascadeFolders` /
  `Cascade.CascadeBookmarks` of the tables it started from.
- The method also returns the sequence of its writes as a ghost value.
- The lemmas in `Cascade` relate `PostOrder` to an independent definition of the subtree, `Reaches`
  (k parent links lead from `x` to `f`). They prove:
  - completeness and non-leakage of the cascade;
  - its write order;
  - idempotence.

The child enumeration ignores owner and deletion state, so the cascade crosses users and revisits
rows that are already deleted. The lemmas state this as it is.

A foreign key makes `folder_id` either null or the id of an existing folder, but nothing rules out a
cycle of parent links: an update of `folder_id` can close one. On a cycle, the recursion would never end. The model therefore asks its caller for a ghost `rank` that strictly grows
along every parent link (`Cascade.Ranking`). `Cascade.NoCycle` shows a ranking excludes cycles. The
rank is the termination measure.

The TypeScript files `src/entities/folder/folder.service.ts`, `src/entities/bookmark/bookmark.service.ts`,
`src/entities/bookmark/bookmark.repository.ts`, `api/entities/chip/chip.repository.ts` and
`api/entities/chip/chip.service.ts` mirror the JavaScript ones. Each behaviour is modelled once. The
table below cites whichever copy states it most directly.

Timestamps (`created_at`, `click_date`) are natural numbers. The time of an insert is a parameter `now`.

## Model

| member | source | states |
|---|---|---|
| `Tables.Scan` | entities/folder/folder.repository.js:59-61 | the ids of the rows satisfying a where-clause, exactly them, strictly increasing |
| `Tables.Query` | entities/folder/folder.repository.js:16-18 | `select view where keep`: one projected row per matching id, in key order; every element comes from a matching row and every matching row is present |
| `Tables.SortRows` | entities/folder/folder.repository.js:121-123 | `orderBy`: the result is a permutation of the input and is non-strictly ordered by the key in the requested direction |
| `Folders.FolderStore.FetchAllParent` | entities/folder/folder.repository.js:16-18 | exactly the user's live top-level folders (`folder_id` null), projected to the five selected columns |
| `Folders.FolderStore.FetchAllNested` | entities/folder/folder.repository.js:32-34 | exactly the user's live folders whose parent is the given folder |
| `Folders.FolderStore.FetchById` | entities/folder/folder.repository.js:48-50 | a value exactly when the id is present and not deleted, and then the row's projection |
| `Folders.FolderStore.FetchAllByFolderId` | entities/folder/folder.repository.js:59-61 | every child row of the folder, deleted or not, of any owner, all columns, in the order of `ChildIds` |
| `Folders.FolderStore.LiveChildren` | entities/folder/folder.repository.js:122 | exactly the user's live children of the folder, the rows `sortBy` selects |
| `Folders.FolderStore.SortBy` | entities/folder/folder.repository.js:121-123 | a permutation of `LiveChildren`, ordered by the chosen column in the chosen direction |
| `Folders.FolderStore.Create` | entities/folder/folder.repository.js:71-74 | the new row sits under the fresh id `nextId`; no existing row changes |
| `Folders.FolderStore.Update` | entities/folder/folder.repository.js:87-89 | only the row with the id takes the patch's columns; the count is 1 if the id exists, else 0 and nothing changes |
| `Folders.FolderStore.Remove` | entities/folder/folder.repository.js:100-102 | `isdeleted` is set on that row only, every other field and row is unchanged, the count is 0 for an absent id |
| `Cascade.MarkDeletedTwice` | entities/folder/folder.repository.js:100-102 | soft-deleting twice is soft-deleting the union once, so repeating `remove` changes nothing |
| `Bookmarks.BookmarkStore.FetchById` | entities/bookmark/bookmark.repository.js:19-22 | a value exactly when the id is present and live, and then the row's projection |
| `Bookmarks.BookmarkStore.FetchAll` | src/entities/bookmark/bookmark.repository.ts:31-33 | exactly the user's live bookmarks |
| `Bookmarks.BookmarkStore.FetchByFolderId` | entities/bookmark/bookmark.repository.js:51-53 | exactly the user's live bookmarks filed in the folder |
| `Bookmarks.BookmarkStore.FetchByTitle` | entities/bookmark/bookmark.repository.js:120-122 | title and url of exactly the live bookmarks of the folder whose lower-cased title contains the lower-cased query |
| `Bookmarks.BookmarkStore.FetchRecentlyClickedBookmarksByTitle` | entities/bookmark/bookmark.repository.js:220-222 | the same search over live bookmarks with a click date, for every owner |
| `Bookmarks.BookmarkStore.FilterRecentlyClickedBookmarksByChip` | src/entities/bookmark/bookmark.repository.ts:202-204 | exactly the user's live bookmarks with a click date and the given chip |
| `Bookmarks.BookmarkStore.SortBy` | entities/bookmark/bookmark.repository.js:141-143 | a permutation of `FetchByFolderId`, ordered by the chosen column of each item's row |
| `Bookmarks.BookmarkStore.RecentlyClicked` | entities/bookmark/bookmark.repository.js:188 | exactly the user's live bookmarks that have a click date |
| `Bookmarks.BookmarkStore.SortItems` | entities/bookmark/bookmark.repository.js:142 | a permutation of the given items, each item's row ordered by the chosen column in the chosen direction |
| `Bookmarks.SortedByRows` | entities/bookmark/bookmark.repository.js:142 | a sort of projected items by a key read from their rows is a sort of those rows by that column |
| `Bookmarks.BookmarkStore.SortRecentlyClickedBookmarkBy` | entities/bookmark/bookmark.repository.js:187-189 | a permutation of `RecentlyClicked`, ordered by the chosen column in the chosen direction |
| `Bookmarks.BookmarkStore.Create` | entities/bookmark/bookmark.repository.js:64-67 | the new row sits under a fresh id and is then visible through `FetchById` unless inserted as deleted |
| `Bookmarks.BookmarkStore.UpdateTitle` | entities/bookmark/bookmark.repository.js:81-83 | only the row with the id takes the patch; count 1 if present, else 0 and nothing changes |
| `Bookmarks.BookmarkStore.Remove` | entities/bookmark/bookmark.repository.js:93-95 | the record written back on the row with its own id, whose presence decides the count |
| `Bookmarks.BookmarkStore.UpdateClickedDate` | src/entities/bookmark/bookmark.repository.ts:151-153 | only the row whose id is the record's id is overwritten |
| `Bookmarks.BookmarkStore.UpdateWhere` | entities/bookmark/bookmark.repository.js:167-169 | an `update(...).where(...)` on one id, optionally filtered by owner: count 1 and exactly that row patched when it matches (deleted or not), otherwise count 0 and the table unchanged |
| `Bookmarks.BookmarkStore.RemoveRecentlyClickedBookmark` | entities/bookmark/bookmark.repository.js:167-169 | writes only when both the id and the owner match; another user's bookmark stays unchanged |
| `Bookmarks.BookmarkStore.RemoveByFolderid` | entities/bookmark/bookmark.repository.js:106-108 | `isdeleted` is set on the bookmarks of that folder, of any owner, and on no other; the count is their number |
| `Images.ImageStore.FetchById` | entities/image/image.repository.js:19-21 | a value exactly when the id is present and live, projected to id, name, url and type |
| `Images.ImageStore.Create` | entities/image/image.repository.js:32-36 | a fresh id, visible afterwards through `FetchById` unless inserted as deleted |
| `Images.ImageStore.Update` | entities/image/image.repository.js:48-50 | only the row with the id changes; the count is 0 for an absent id |
| `Images.ImageStore.Remove` | entities/image/image.repository.js:60-62 | `isdeleted` is set on that id only |
| `Chips.ChipStore.FetchById` | entities/chip/chip.repository.js:8-10 | a value exactly when the chip is present and live |
| `Chips.ChipStore.FetchAll` | api/entities/chip/chip.repository.ts:8-10 | exactly the user's live chips |
| `Chips.ChipStore.Create` | entities/chip/chip.repository.js:16-19 | the new row sits under a fresh id; no existing row changes |
| `Chips.ChipStore.Update` | api/entities/chip/chip.repository.ts:17-19 | only the row with the id changes; the count is 0 for an absent id |
| `Chips.ChipStore.Remove` | entities/chip/chip.repository.js:25-27 | `isdeleted` is set on that id only |
| `Cascade.Reaches` | src/migrations/20240108044740_folders.ts:14-15 | the reference definition of the subtree: following k `folder_id` links from `x` lands on `f` |
| `Cascade.Steps` | entities/folder/folder.service.js:105-109 | the writes of a visit order: each folder's row at position 2i, its bookmarks at 2i+1 |
| `Cascade.NoCycle` | src/migrations/20240108044740_folders.ts:14-15 | under a ranking of the parent links no folder is its own proper ancestor |
| `Cascade.PostOrderIsSubtree` | entities/folder/folder.service.js:103-111 | the folders the deletion visits are exactly `f` and the folders whose parent links lead to `f` |
| `Cascade.DescendantsFirst` | entities/folder/folder.service.js:105-108 | every proper descendant of a visited folder is soft-deleted before it |
| `Cascade.DescendantStepsFirst` | src/entities/folder/folder.service.ts:88-93 | in the writes, a folder's row and its bookmarks follow the rows and bookmarks of all its descendants, and a folder's row precedes its bookmarks |
| `Cascade.CascadeMarksSubtree` | entities/folder/folder.service.js:103-111 | every folder of the subtree ends up deleted, whoever owns it and whether or not it was deleted already |
| `Cascade.CascadeKeepsRows` | entities/folder/folder.service.js:103-111 | no folder row appears or disappears |
| `Cascade.CascadeOnlySubtree` | entities/folder/folder.service.js:103-111 | a row that changes is in the subtree and changes only in `isdeleted` |
| `Cascade.CascadeMarksBookmarks` | entities/folder/folder.service.js:109 | every bookmark filed in a folder of the subtree ends up deleted |
| `Cascade.CascadeOnlySubtreeBookmarks` | entities/folder/folder.service.js:109 | a bookmark that changes is filed in the subtree and changes only in `isdeleted` |
| `Cascade.CascadeIdempotent` | entities/folder/folder.service.js:103-111 | a second deletion of the same folder visits the same folders and leaves both tables as the first left them |
| `Cascade.LeafCascade` | entities/folder/folder.service.js:103-111 | a folder without children is deleted alone: its row, then its bookmarks |
| `Cascade.NextChild` | src/entities/folder/folder.service.ts:88-90 | one turn of the loop: deleting the next child on the tables as they stand adds exactly that child's subtree to what is deleted |
| `FolderService.FindAllFolders` | src/entities/folder/folder.service.ts:11-17 | always succeeds, with exactly the user's live top-level folders; an empty list is not FOLDER_EMPTY |
| `FolderService.FindAllNestedFolders` | src/entities/folder/folder.service.ts:19-25 | always succeeds, with exactly the user's live folders in the parent |
| `FolderService.FindFolderById` | entities/folder/folder.service.js:56-61 | the live row, or FOLDER_NOT_FOUND exactly when the id is absent or deleted |
| `FolderService.AddFolders` | src/entities/folder/folder.service.ts:48-55 | the row just inserted, read back by its new id (undefined when inserted as deleted); ADD_FAILED cannot occur |
| `FolderService.UpdateFolder` | entities/folder/folder.service.js:86-91 | UPDATE_FOLDER exactly when no row has the id; otherwise the patched row re-read, undefined if it is deleted |
| `FolderService.RemoveFolder` | entities/folder/folder.service.js:103-111 | the folder table ends as `CascadeFolders`, the bookmark table as `CascadeBookmarks`, the writes are `Steps(PostOrder)`; it never fails, even on an absent id |
| `FolderService.SortByDate` | entities/folder/folder.service.js:128-131 | a permutation of the live children ordered by `created_at` |
| `FolderService.SortByAlphabet` | entities/folder/folder.service.js:148-151 | a permutation of the live children ordered by `name` |
| `BookmarkService.FindBookmarkById` | entities/bookmark/bookmark.service.js:38-43 | the live bookmark, or BOOKMARK_NOT_FOUND exactly when it is absent or deleted |
| `BookmarkService.FindBookmarks` | entities/bookmark/bookmark.service.js:50-55 | always succeeds, with exactly the user's live bookmarks |
| `BookmarkService.FindBookmarksByFolderId` | entities/bookmark/bookmark.service.js:67-72 | always succeeds, with exactly the user's live bookmarks in the folder |
| `BookmarkService.AddBookmark` | src/entities/bookmark/bookmark.service.ts:57-64 | the inserted bookmark read back by its new id; BOOKMARK_NOT_FOUND only when inserted as deleted |
| `BookmarkService.UpdateBookmark` | src/entities/bookmark/bookmark.service.ts:76-81 | UPDATE_FAILED exactly when no row has the id; otherwise the patched row re-read |
| `BookmarkService.RemoveBookmark` | src/entities/bookmark/bookmark.service.ts:89-98 | on a live bookmark: marks it deleted, soft-deletes its image and returns the record as read; otherwise BOOKMARK_NOT_FOUND and nothing changes; DELETE_FAILED cannot occur |
| `BookmarkService.GetBookmarksByTitle` | entities/bookmark/bookmark.service.js:136-139 | every live bookmark of the folder whose title contains the query, ignoring ASCII case, and every result is the title and url of such a bookmark |
| `BookmarkService.SortByDate` | entities/bookmark/bookmark.service.js:156-159 | a permutation of the folder's live bookmarks ordered by `created_at` |
| `BookmarkService.SortByAlphabet` | entities/bookmark/bookmark.service.js:177-180 | a permutation of the folder's live bookmarks ordered by `title` |
| `BookmarkService.UpdateClickedDate` | src/entities/bookmark/bookmark.service.ts:167-173 | UPDATE_FAILED exactly when no row has the record's id; otherwise only that row is patched |
| `BookmarkService.FindRecentClickedBookmarks` | entities/bookmark/bookmark.service.js:203-208 | always succeeds, with the user's recently clicked bookmarks, latest click first |
| `BookmarkService.DeleteRecentBookmarkById` | entities/bookmark/bookmark.service.js:220-226 | DELETE_FAILED exactly when no row matches both id and user; otherwise the record is written back with `click_date` null and the bookmark is in no recent list |
| `BookmarkService.SortRecentBookmarkByDate` | entities/bookmark/bookmark.service.js:241-246 | EMPTY_RECENT_BOOKMARK exactly when the user has no recently clicked bookmark; otherwise they all, ordered by click date |
| `BookmarkService.SortRecentBookmarkByAlphabet` | entities/bookmark/bookmark.service.js:260-265 | BOOKMARK_EMPTY exactly when the user has no recently clicked bookmark; otherwise they all, ordered by title |
| `BookmarkService.NoneRecent` | entities/bookmark/bookmark.service.js:243-244 | a permutation of the recent list is empty exactly when the user has no recently clicked bookmark |
| `BookmarkService.FilterRecentBookmarkByChip` | entities/bookmark/bookmark.service.js:278-283 | EMPTY_RECENT_BOOKMARK exactly when the user has no recently clicked bookmark with the chip; otherwise exactly the items of those bookmarks |
| `BookmarkService.GetRecentBookmarksByTitle` | entities/bookmark/bookmark.service.js:298-301 | every recently clicked bookmark of any owner whose title contains the query, and every result is the title and url of such a bookmark |
| `ImageService.FindImage` | entities/image/image.service.js:35-40 | the live image, or IMAGE_NOT_FOUND exactly when it is absent or deleted |
| `ImageService.SaveImage` | entities/image/image.service.js:53-62 | stores the data with `created_by` and `updated_by` set to the username and returns the new row read back |
| `ImageService.UpdateImage` | entities/image/image.service.js:75-80 | UPLOAD_FAILED exactly when no row has the id; otherwise the patched row re-read |
| `ImageService.RemoveImage` | entities/image/image.service.js:88-96 | on a live image: soft-deletes it and returns it as read; otherwise IMAGE_NOT_FOUND and nothing changes, so a second call fails |
| `ChipService.FindChipById` | entities/chip/chip.service.js:36-41 | the live chip, or CHIP_NOTFOUND exactly when it is absent or deleted |
| `ChipService.FindAllChips` | api/entities/chip/chip.service.ts:25-31 | always succeeds, with exactly the user's live chips; an empty list is not CHIP_NOT_AVAILABLE |
| `ChipService.AddChip` | entities/chip/chip.service.js:61-67 | the inserted chip read back by its new id |
| `ChipService.UpdateChip` | api/entities/chip/chip.service.ts:59-65 | UPDATE_FAILED exactly when no row has the id; otherwise the patched chip re-read |
| `ChipService.RemoveChip` | entities/chip/chip.service.js:92-100 | on a live chip: soft-deletes it and returns it as read; otherwise CHIP_NOTFOUND, so REMOVE_FAILED cannot occur |
| `Hostname.SchemeEnd` | utils/bookmark.js:10 | how `https?://` matches at a position: it matches exactly where `http://` or `https://` stands in any case, ending where that scheme ends |
| `Hostname.RunEnd` | utils/bookmark.js:10 | the end of the longest run of characters other than `/` and `?` |
| `Hostname.MatchAt` | utils/bookmark.js:10 | the pattern matches at a position exactly when a scheme there is followed by a character other than `/` or `?`; the capture is the longest such run, after `www.` when a non-empty one follows it |
| `Hostname.FirstMatch` | utils/bookmark.js:11 | the leftmost position where the pattern matches, none before it, or no position at all |
| `Hostname.GetHostnameFromUrl` | utils/bookmark.js:9-18 | null exactly when no scheme is followed by a character other than `/` or `?`; otherwise a non-empty host without `/` or `?`, captured at the leftmost match |
| `Hostname.HostnameIgnoresCase` | utils/bookmark.js:10 | urls equal up to ASCII case give hosts equal up to case: scheme and `www.` match in any case |
| `Hostname.SchemeThenHost` | utils/bookmark.js:9-18 | a url made of a scheme in any case, `www.` or nothing, a non-empty host without `/` or `?`, then a stop character or the end, gives exactly that host (without `www.`, the host must not start with `w`) |
| `Hostname.WwwDropped` | utils/bookmark.js:10 | `https://www.example.com/a` gives `example.com` |
| `Hostname.PortKept` | utils/bookmark.js:10 | `http://a.com:80/x` gives `a.com:80` |
| `Hostname.UpperCaseScheme` | utils/bookmark.js:10 | `HTTPS://WWW.Example.COM?q` gives `Example.COM` |
| `Hostname.WwwGivenBack` | utils/bookmark.js:10 | `http://www./` gives `www.`: the optional group is given back |
| `Hostname.LeftmostWins` | utils/bookmark.js:10-11 | leading text is skipped and the first of two urls wins |
| `Hostname.EmptyHostSkipped` | utils/bookmark.js:10-11 | a scheme followed by `?` does not match, a later one does |
| `Hostname.NoScheme` | utils/bookmark.js:15-16 | a string without a scheme gives null |
| `Hostname.FaviconFallback` | utils/bookmark.js:43-45 | the favicon address: the fixed prefix and suffix, and a `domain` parameter that reads back as the rendered hostname |
| `Hostname.NullHost` | utils/bookmark.js:9-18 | `http://null` has the ordinary host `null` |
| `Hostname.NullHostAmbiguous` | utils/bookmark.js:44 | a url without a host and `http://null` fall back to the same address, since null renders as `null` |
| `ImageValidation.AlternativeFrom` | entities/image/image.controller.js:20 | the alternation, tried in order, matches exactly when some keyword matches as a whole word at the position |
| `ImageValidation.TestFrom` | entities/image/image.controller.js:21 | the engine's scan over start positions succeeds exactly when a keyword matches somewhere from there on |
| `ImageValidation.Test` | entities/image/image.controller.js:21 | `test` is true exactly when some keyword occurs as a whole word, ignoring ASCII case |
| `ImageValidation.IsValidType` | entities/image/image.controller.js:19-25 | true when the type holds `folder`, `user` or `bookmark` as a whole word, INVALID_TYPE otherwise; never false |
| `ImageValidation.LastSegment` | entities/image/image.controller.js:50 | `split('.').pop()`: the longest suffix without a dot, which is the whole name when it has no dot |
| `ImageValidation.LastSegmentUnique` | entities/image/image.controller.js:50 | those properties determine the segment uniquely |
| `ImageValidation.NoDotWhole` | entities/image/image.controller.js:50 | a name without a dot is its own last segment |
| `ImageValidation.ValidateImageType` | entities/image/image.controller.js:49-56 | succeeds exactly when the last segment holds `png`, `jpg`, `jpeg` or `gif` as a whole word; INVALID_IMAGE_TYPE otherwise |
| `ImageValidation.PluralTypesRefused` | entities/image/image.controller.js:20 | `users` and `bookmarks` are refused |
| `ImageValidation.TypesAccepted` | entities/image/image.controller.js:20 | `user-x` and `Folder` are accepted |
| `ImageValidation.InnerExtensionRefused` | entities/image/image.controller.js:50-51 | `photo.png.exe` is refused |
| `ImageValidation.DigitSuffixRefused` | entities/image/image.controller.js:51 | `x.jpg2` is refused |
| `ImageValidation.UpperCaseExtensionAccepted` | entities/image/image.controller.js:50-51 | `photo.JPEG` is accepted: the extension test ignores case |
| `ImageValidation.WholeNameAccepted` | entities/image/image.controller.js:50-51 | `noext-png`, a name with no dot, is tested whole and accepted |

## Left out

- HTTP controllers, routes, the Joi schemas, authentication, the user service and the upload handling are not part of this model. They are request plumbing or calls into libraries.
- The Google Custom Search requests in `getTitleFromURL` and `getThumbnailFromURL` are network I/O. Only the hostname extraction and the favicon fallback built on it are modelled.
- Cloudinary uploads are network I/O and are left out.
- The database is an in-memory map. Transactions and concurrent requests are left out: `removeFolder` runs without a transaction, and nothing else interleaves with it.
- `removeBookmark` does not await `ImageDAO.remove`. The model performs it as the next step, and an error from it is not modelled.
- The message texts of the exception constants are left out; only their identities are modelled. The image message constants file is not part of this model.
- Database errors are left out: no write ever fails. A `where` with an `undefined` binding is one such error.
- `fetchAllByFolderId` names the column `'folder_id '`, with a trailing space. The model matches it as `folder_id`, the column that is evidently meant.
- `FolderService.RemoveFolder` requires a ranking of the parent links of the whole folder table, which is more than the source needs. The source recurses without end only when the starting folder lies on a parent-link cycle, since a cycle reached through child links has to pass through it. A table with a cycle elsewhere is outside the model, although `removeFolder` terminates on it.
- `FolderService.RemoveFolder`: a select without `orderBy` returns its rows in primary-key order in the model (`Tables.Scan`). The source leaves that order to the database, which may return rows in storage order, and an update can change that order. So the sibling order in the writes `steps` is one of the orders the source can produce, not the only one. The end tables, and the fact that descendants are written first (`Cascade.DescendantStepsFirst`), do not depend on it.
- `Tables.SortRows`: the order of rows with equal keys is left open, as SQL leaves it. The sort direction is `Asc` or `Desc`; other direction strings that knex accepts or rejects are left out.
- `Tables.TextLe` orders text by character code. Database collations are left out.
- `Bookmarks.BookmarkStore.FetchByTitle` treats the query as a plain substring. `%` and `_` inside it, which `LIKE` reads as wildcards, are not modelled, and case folding covers ASCII letters only.
- `Bookmarks.BookmarkStore.FetchRecentlyClickedBookmarksByTitle` has the same gap: no `LIKE` wildcards, ASCII case folding only. So does `BookmarkService.GetBookmarksByTitle`, which relays `FetchByTitle`, and so does `BookmarkService.GetRecentBookmarksByTitle`, which relays the recent search.
- The `created_at` default of the database is the `now` parameter of `Create`. The `updated_at` column and the other columns no query reads are left out of the rows.
- Patches never rewrite the primary key `id`.
- The `!result` checks on list results never fire, because an array is never falsy, so FOLDER_EMPTY, BOOKMARK_EMPTY (in `findBookmarks`, `findBookmarksByFolderId` and `findRecentClickedBookmarks`) and CHIP_NOT_AVAILABLE are never thrown. The length check that throws BOOKMARK_EMPTY in `sortRecentBookmarkByAlphabet` does fire and is modelled. `create` always returns an object, so the ADD_FAILED checks never fire either.
- `ImageValidation.IsValidType` receives a string. A missing `type`, which `test` reads as the text `undefined`, is not modelled.
- `Hostname.GetHostnameFromUrl` applies case-insensitivity to ASCII letters only. That is exact for this pattern, whose letters are all ASCII.

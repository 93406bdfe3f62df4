/** The `bookmarks` table and the repository that reads and writes it. */
module Bookmarks {
  import opened Wrappers
  import opened Tables
  import opened Text

  /** A row of `bookmarks`; `clickDate` is the nullable `click_date` that makes a bookmark "recent". */
  datatype Bookmark = Bookmark(
    id: nat, title: string, url: string, date: nat, imageId: nat, userId: nat,
    folderId: nat, chipId: nat, createdBy: string, updatedBy: string,
    clickDate: Option<nat>, isDeleted: bool, createdAt: nat)
  {
    /** The columns `id, url, image_id, user_id, folder_id, chip_id, title, date` of the single-row and per-user reads. */
    function View(): BookmarkView
    {
      BookmarkView(id, url, imageId, userId, folderId, chipId, title, date)
    }

    /** The columns `id, url, image_id, folder_id, title, date` of the per-folder and recent lists. */
    function Item(): BookmarkItem
    {
      BookmarkItem(id, url, imageId, folderId, title, date)
    }

    /** The columns `title, url` of the title searches. */
    function TitleAndUrl(): TitleUrl
    {
      TitleUrl(title, url)
    }

    /** A live bookmark with a click date: what the recent-bookmark queries select. */
    predicate IsRecentlyClicked()
    {
      !isDeleted && clickDate.Some?
    }

    /** The value of the column a sorted query orders on. */
    function Key(column: BookmarkColumn): SortKey
    {
      match column
      case CreatedAt => DateKey(createdAt)
      case Title => TextKey(title)
      case ClickDate => DateKey(if clickDate.Some? then clickDate.value else 0)
    }
  }

  datatype BookmarkView = BookmarkView(
    id: nat, url: string, imageId: nat, userId: nat, folderId: nat, chipId: nat, title: string, date: nat)
  {
    /** The update object `{...view}`: every selected column except the id, at its current value. */
    function AsPatch(): BookmarkPatch
    {
      BookmarkPatch(Some(title), Some(url), Some(date), Some(imageId), Some(userId), Some(folderId),
                    Some(chipId), None, None, None, None)
    }
  }

  datatype BookmarkItem = BookmarkItem(id: nat, url: string, imageId: nat, folderId: nat, title: string, date: nat)

  datatype TitleUrl = TitleUrl(title: string, url: string)

  /** The columns the sorted queries are called with: `created_at`, `title` and `click_date`. */
  datatype BookmarkColumn = CreatedAt | Title | ClickDate

  /** The column values an insert supplies; the database chooses `id` and `created_at`. */
  datatype NewBookmark = NewBookmark(
    title: string, url: string, date: nat, imageId: nat, userId: nat, folderId: nat, chipId: nat,
    createdBy: string, updatedBy: string, clickDate: Option<nat>, isDeleted: bool)
  {
    function ToRow(id: nat, now: nat): Bookmark
    {
      Bookmark(id, title, url, date, imageId, userId, folderId, chipId, createdBy, updatedBy, clickDate, isDeleted, now)
    }
  }

  /** The columns an update object carries; `None` leaves the column as it is. */
  datatype BookmarkPatch = BookmarkPatch(
    title: Option<string>, url: Option<string>, date: Option<nat>, imageId: Option<nat>,
    userId: Option<nat>, folderId: Option<nat>, chipId: Option<nat>, createdBy: Option<string>,
    updatedBy: Option<string>, clickDate: Option<Option<nat>>, isDeleted: Option<bool>)
  {
    function ApplyTo(b: Bookmark): Bookmark
    {
      b.(title := if title.Some? then title.value else b.title,
         url := if url.Some? then url.value else b.url,
         date := if date.Some? then date.value else b.date,
         imageId := if imageId.Some? then imageId.value else b.imageId,
         userId := if userId.Some? then userId.value else b.userId,
         folderId := if folderId.Some? then folderId.value else b.folderId,
         chipId := if chipId.Some? then chipId.value else b.chipId,
         createdBy := if createdBy.Some? then createdBy.value else b.createdBy,
         updatedBy := if updatedBy.Some? then updatedBy.value else b.updatedBy,
         clickDate := if clickDate.Some? then clickDate.value else b.clickDate,
         isDeleted := if isDeleted.Some? then isDeleted.value else b.isDeleted)
    }
  }

  /** The table after setting `isdeleted` on every row whose folder is listed in `folderIds`. */
  function MarkInFolders(rows: map<nat, Bookmark>, folderIds: seq<nat>): map<nat, Bookmark>
  {
    map id | id in rows :: if rows[id].folderId in folderIds then rows[id].(isDeleted := true) else rows[id]
  }

  /** The ids of the rows filed in `folderId`, deleted or not. */
  function InFolder(rows: map<nat, Bookmark>, n: nat, folderId: nat): seq<nat>
  {
    Scan(rows, n, (b: Bookmark) => b.folderId == folderId)
  }

  /** A sort of items by `key` is a sort by the rows they were projected from, when `key` reads those rows. */
  lemma SortedByRows(rows: map<nat, Bookmark>, key: BookmarkItem -> SortKey, column: BookmarkColumn, order: SortOrder,
                     items: seq<BookmarkItem>, r: seq<BookmarkItem>)
    requires forall v :: v in items ==> v.id in rows
    requires forall v: BookmarkItem :: v.id in rows ==> key(v) == rows[v.id].Key(column)
    requires multiset(r) == multiset(items) && SortedBy(r, key, order)
    ensures forall v :: v in r ==> v.id in rows
    ensures forall i, j :: 0 <= i < j < |r| ==> InOrder(rows[r[i].id].Key(column), rows[r[j].id].Key(column), order)
  {
    forall v | v in r
      ensures v.id in rows
    {
      assert v in multiset(r);
    }
    forall i, j | 0 <= i < j < |r|
      ensures InOrder(rows[r[i].id].Key(column), rows[r[j].id].Key(column), order)
    {
      assert r[i] in r && r[j] in r;
    }
  }

  class BookmarkStore {
    var rows: map<nat, Bookmark>
    var nextId: nat

    /** Every row is stored under its own id, and ids come from a serial counter starting at 1. */
    ghost predicate Valid()
      reads this
    {
      1 <= nextId && forall id :: id in rows ==> 1 <= id < nextId && rows[id].id == id
    }

    constructor ()
      ensures Valid() && rows == map[] && nextId == 1
    {
      rows := map[];
      nextId := 1;
    }

    /** fetchById: the first live row with this id, projected; `None` is `undefined`. */
    function FetchById(bookmarkId: nat): (r: Option<BookmarkView>)
      reads this
      requires Valid()
      ensures r.Some? <==> bookmarkId in rows && !rows[bookmarkId].isDeleted
      ensures r.Some? ==> r.value == rows[bookmarkId].View()
    {
      var hits := Query(rows, nextId, (b: Bookmark) => b.id == bookmarkId && !b.isDeleted, (b: Bookmark) => b.View());
      if |hits| == 0 then None else assert hits[0] in hits; Some(hits[0])
    }

    /** fetchAll: the user's live bookmarks. */
    function FetchAll(userId: nat): (r: seq<BookmarkView>)
      reads this
      requires Valid()
      ensures forall v :: v in r ==>
        (v.id in rows && v == rows[v.id].View() && rows[v.id].userId == userId && !rows[v.id].isDeleted)
      ensures forall id :: id in rows && rows[id].userId == userId && !rows[id].isDeleted ==> rows[id].View() in r
    {
      Query(rows, nextId, (b: Bookmark) => b.userId == userId && !b.isDeleted, (b: Bookmark) => b.View())
    }

    /** fetchByFolderId: the user's live bookmarks filed in `folderId`. */
    function FetchByFolderId(userId: nat, folderId: nat): (r: seq<BookmarkItem>)
      reads this
      requires Valid()
      ensures forall v :: v in r ==>
        (v.id in rows && v == rows[v.id].Item() && rows[v.id].userId == userId
         && rows[v.id].folderId == folderId && !rows[v.id].isDeleted)
      ensures forall id ::
        (id in rows && rows[id].userId == userId && rows[id].folderId == folderId && !rows[id].isDeleted
         ==> rows[id].Item() in r)
    {
      Query(rows, nextId, (b: Bookmark) => b.userId == userId && b.folderId == folderId && !b.isDeleted,
            (b: Bookmark) => b.Item())
    }

    /** fetchByTitle: title and url of the live bookmarks in `folderId` whose lower-cased title contains the lower-cased `title`. */
    function FetchByTitle(title: string, folderId: nat): (r: seq<TitleUrl>)
      reads this
      requires Valid()
      ensures forall t :: t in r ==>
        exists id :: (id in rows && t == rows[id].TitleAndUrl() && Contains(Lower(rows[id].title), Lower(title))
                      && !rows[id].isDeleted && rows[id].folderId == folderId)
      ensures forall id ::
        (id in rows && Contains(Lower(rows[id].title), Lower(title)) && !rows[id].isDeleted && rows[id].folderId == folderId
         ==> rows[id].TitleAndUrl() in r)
    {
      Query(rows, nextId, (b: Bookmark) => Contains(Lower(b.title), Lower(title)) && !b.isDeleted && b.folderId == folderId,
            (b: Bookmark) => b.TitleAndUrl())
    }

    /** fetchRecentlyClickedBookmarksByTittle: like `FetchByTitle` over every owner's recently clicked bookmarks. */
    function FetchRecentlyClickedBookmarksByTitle(title: string): (r: seq<TitleUrl>)
      reads this
      requires Valid()
      ensures forall t :: t in r ==>
        exists id :: (id in rows && t == rows[id].TitleAndUrl() && Contains(Lower(rows[id].title), Lower(title))
                      && rows[id].IsRecentlyClicked())
      ensures forall id ::
        (id in rows && Contains(Lower(rows[id].title), Lower(title)) && rows[id].IsRecentlyClicked()
         ==> rows[id].TitleAndUrl() in r)
    {
      Query(rows, nextId, (b: Bookmark) => Contains(Lower(b.title), Lower(title)) && b.IsRecentlyClicked(),
            (b: Bookmark) => b.TitleAndUrl())
    }

    /** filterRecentlyClickedBookmarksByChip: the user's recently clicked bookmarks carrying `chipId`. */
    function FilterRecentlyClickedBookmarksByChip(userId: nat, chipId: nat): (r: seq<BookmarkItem>)
      reads this
      requires Valid()
      ensures forall v :: v in r ==>
        (v.id in rows && v == rows[v.id].Item() && rows[v.id].userId == userId
         && rows[v.id].chipId == chipId && rows[v.id].IsRecentlyClicked())
      ensures forall id ::
        (id in rows && rows[id].userId == userId && rows[id].chipId == chipId && rows[id].IsRecentlyClicked()
         ==> rows[id].Item() in r)
    {
      Query(rows, nextId, (b: Bookmark) => b.userId == userId && b.chipId == chipId && b.IsRecentlyClicked(),
            (b: Bookmark) => b.Item())
    }

    /** The key of the row an item was projected from. */
    function KeyOf(column: BookmarkColumn): (key: BookmarkItem -> SortKey)
      reads this
      ensures forall v: BookmarkItem :: v.id in rows ==> key(v) == rows[v.id].Key(column)
    {
      var m := rows;
      (v: BookmarkItem) => if v.id in m then m[v.id].Key(column) else DateKey(0)
    }

    /** `orderBy(column, order)` on items projected from rows of this table: ordered by the column of each item's row. */
    function SortItems(items: seq<BookmarkItem>, column: BookmarkColumn, order: SortOrder): (r: seq<BookmarkItem>)
      reads this
      requires forall v :: v in items ==> v.id in rows
      ensures multiset(r) == multiset(items)
      ensures forall v :: v in r ==> v.id in rows
      ensures forall i, j :: 0 <= i < j < |r| ==> InOrder(rows[r[i].id].Key(column), rows[r[j].id].Key(column), order)
    {
      var key := KeyOf(column);
      var r := SortRows(items, key, order);
      SortedByRows(rows, key, column, order, items, r);
      r
    }

    /** sortBy: the user's live bookmarks in `folderId`, ordered by `column` in direction `order`. */
    function SortBy(column: BookmarkColumn, userId: nat, folderId: nat, order: SortOrder): (r: seq<BookmarkItem>)
      reads this
      requires Valid()
      ensures multiset(r) == multiset(FetchByFolderId(userId, folderId))
      ensures forall v :: v in r ==> v.id in rows
      ensures forall i, j :: 0 <= i < j < |r| ==> InOrder(rows[r[i].id].Key(column), rows[r[j].id].Key(column), order)
    {
      SortItems(FetchByFolderId(userId, folderId), column, order)
    }

    /** The where-clause of sortRecentlyClickedBookmarkBy: the user's recently clicked bookmarks, in id order. */
    function RecentlyClicked(userId: nat): (r: seq<BookmarkItem>)
      reads this
      requires Valid()
      ensures forall v :: v in r ==>
        (v.id in rows && v == rows[v.id].Item() && rows[v.id].userId == userId && rows[v.id].IsRecentlyClicked())
      ensures forall id ::
        (id in rows && rows[id].userId == userId && rows[id].IsRecentlyClicked() ==> rows[id].Item() in r)
    {
      Query(rows, nextId, (b: Bookmark) => b.userId == userId && b.IsRecentlyClicked(), (b: Bookmark) => b.Item())
    }

    /** sortRecentlyClickedBookmarkBy: the user's recently clicked bookmarks, ordered by `column` in direction `order`. */
    function SortRecentlyClickedBookmarkBy(column: BookmarkColumn, userId: nat, order: SortOrder): (r: seq<BookmarkItem>)
      reads this
      requires Valid()
      ensures multiset(r) == multiset(RecentlyClicked(userId))
      ensures forall v :: v in r ==> v.id in rows
      ensures forall i, j :: 0 <= i < j < |r| ==> InOrder(rows[r[i].id].Key(column), rows[r[j].id].Key(column), order)
    {
      SortItems(RecentlyClicked(userId), column, order)
    }

    /** create: inserts a row under the next serial id and returns that id. */
    method Create(data: NewBookmark, now: nat) returns (bookmarkId: nat)
      requires Valid()
      modifies this
      ensures Valid()
      ensures bookmarkId == old(nextId) && bookmarkId !in old(rows)
      ensures rows == old(rows)[bookmarkId := data.ToRow(bookmarkId, now)]
      ensures nextId == old(nextId) + 1
      ensures FetchById(bookmarkId) == if data.isDeleted then None else Some(data.ToRow(bookmarkId, now).View())
    {
      bookmarkId := nextId;
      rows := rows[bookmarkId := data.ToRow(bookmarkId, now)];
      nextId := nextId + 1;
    }

    /**
     * `update(patch)` on the row with id `bookmarkId` if its owner is `owner` (any owner when `None`);
     * deleted rows are matched too. Returns the number of rows matched. It is the shared body of
     * `UpdateTitle`, `Remove`, `UpdateClickedDate` and `RemoveRecentlyClickedBookmark`.
     */
    method UpdateWhere(patch: BookmarkPatch, bookmarkId: nat, owner: Option<nat>) returns (count: nat)
      requires Valid()
      modifies this
      ensures Valid() && nextId == old(nextId)
      ensures count == if bookmarkId in old(rows) && (owner.None? || old(rows)[bookmarkId].userId == owner.value) then 1 else 0
      ensures rows == if count == 1 then old(rows)[bookmarkId := patch.ApplyTo(old(rows)[bookmarkId])] else old(rows)
    {
      if bookmarkId in rows && (owner.None? || rows[bookmarkId].userId == owner.value) {
        rows := rows[bookmarkId := patch.ApplyTo(rows[bookmarkId])];
        count := 1;
      } else {
        count := 0;
      }
    }

    /** updateTitle: writes the update object on the row with this id. */
    method UpdateTitle(patch: BookmarkPatch, bookmarkId: nat) returns (count: nat)
      requires Valid()
      modifies this
      ensures Valid() && nextId == old(nextId)
      ensures count == if bookmarkId in old(rows) then 1 else 0
      ensures rows == if count == 1 then old(rows)[bookmarkId := patch.ApplyTo(old(rows)[bookmarkId])] else old(rows)
    {
      count := UpdateWhere(patch, bookmarkId, None);
    }

    /** remove: writes the update object (the caller sets `isdeleted`) on the row with the object's id. */
    method Remove(patch: BookmarkPatch, bookmarkId: nat) returns (count: nat)
      requires Valid()
      modifies this
      ensures Valid() && nextId == old(nextId)
      ensures count == if bookmarkId in old(rows) then 1 else 0
      ensures rows == if count == 1 then old(rows)[bookmarkId := patch.ApplyTo(old(rows)[bookmarkId])] else old(rows)
    {
      count := UpdateWhere(patch, bookmarkId, None);
    }

    /** updateClickedDate: writes the update object (carrying `click_date`) on the row with the object's id. */
    method UpdateClickedDate(patch: BookmarkPatch, bookmarkId: nat) returns (count: nat)
      requires Valid()
      modifies this
      ensures Valid() && nextId == old(nextId)
      ensures count == if bookmarkId in old(rows) then 1 else 0
      ensures rows == if count == 1 then old(rows)[bookmarkId := patch.ApplyTo(old(rows)[bookmarkId])] else old(rows)
    {
      count := UpdateWhere(patch, bookmarkId, None);
    }

    /** removeRecentlyClickedBookmark: writes the update object on the row with the object's id, only if `userId` owns it. */
    method RemoveRecentlyClickedBookmark(patch: BookmarkPatch, bookmarkId: nat, userId: nat) returns (count: nat)
      requires Valid()
      modifies this
      ensures Valid() && nextId == old(nextId)
      ensures count == if bookmarkId in old(rows) && old(rows)[bookmarkId].userId == userId then 1 else 0
      ensures rows == if count == 1 then old(rows)[bookmarkId := patch.ApplyTo(old(rows)[bookmarkId])] else old(rows)
    {
      count := UpdateWhere(patch, bookmarkId, Some(userId));
    }

    /** removeByFolderid: sets `isdeleted` on every row filed in `folderId`; returns how many rows it matched. */
    method RemoveByFolderid(folderId: nat) returns (count: nat)
      requires Valid()
      modifies this
      ensures Valid() && nextId == old(nextId)
      ensures count == |InFolder(old(rows), old(nextId), folderId)|
      ensures rows == MarkInFolders(old(rows), [folderId])
    {
      count := |InFolder(rows, nextId, folderId)|;
      rows := MarkInFolders(rows, [folderId]);
    }
  }
}

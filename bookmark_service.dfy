/** The bookmark service, including the "recently clicked" bookmarks a user sees first. */
module BookmarkService {
  import opened Wrappers
  import opened Tables
  import opened Text
  import opened Bookmarks
  import opened Images

  /** findBookmarkById: the live bookmark with this id, or BOOKMARK_NOT_FOUND. */
  function FindBookmarkById(bookmarks: BookmarkStore, bookmarkId: nat): (r: Result<BookmarkView>)
    reads bookmarks
    requires bookmarks.Valid()
    ensures r.Ok? <==> bookmarkId in bookmarks.rows && !bookmarks.rows[bookmarkId].isDeleted
    ensures r.Ok? ==> r.value == bookmarks.rows[bookmarkId].View()
    ensures r.Err? ==> r.error == BookmarkNotFound
  {
    match bookmarks.FetchById(bookmarkId)
    case None => Err(BookmarkNotFound)
    case Some(bookmark) => Ok(bookmark)
  }

  /** findBookmarks: the user's live bookmarks. An array is never falsy, so an empty list is a success, not BOOKMARK_EMPTY. */
  function FindBookmarks(bookmarks: BookmarkStore, userId: nat): (r: Result<seq<BookmarkView>>)
    reads bookmarks
    requires bookmarks.Valid()
    ensures r.Ok?
    ensures forall v :: v in r.value ==>
      (v.id in bookmarks.rows && v == bookmarks.rows[v.id].View()
       && bookmarks.rows[v.id].userId == userId && !bookmarks.rows[v.id].isDeleted)
    ensures forall id ::
      (id in bookmarks.rows && bookmarks.rows[id].userId == userId && !bookmarks.rows[id].isDeleted
       ==> bookmarks.rows[id].View() in r.value)
  {
    Ok(bookmarks.FetchAll(userId))
  }

  /** findBookmarksByFolderId: the user's live bookmarks in the folder; an empty list is a success. */
  function FindBookmarksByFolderId(bookmarks: BookmarkStore, userId: nat, folderId: nat): (r: Result<seq<BookmarkItem>>)
    reads bookmarks
    requires bookmarks.Valid()
    ensures r.Ok?
    ensures forall v :: v in r.value ==>
      (v.id in bookmarks.rows && v == bookmarks.rows[v.id].Item() && bookmarks.rows[v.id].userId == userId
       && bookmarks.rows[v.id].folderId == folderId && !bookmarks.rows[v.id].isDeleted)
    ensures forall id ::
      (id in bookmarks.rows && bookmarks.rows[id].userId == userId && bookmarks.rows[id].folderId == folderId
         && !bookmarks.rows[id].isDeleted
       ==> bookmarks.rows[id].Item() in r.value)
  {
    Ok(bookmarks.FetchByFolderId(userId, folderId))
  }

  /**
   * addBookmark: inserts the bookmark and looks it up by its new id. `create` always returns an object,
   * so ADD_FAILED cannot be thrown; the lookup throws BOOKMARK_NOT_FOUND for a row inserted as deleted.
   */
  method AddBookmark(bookmarks: BookmarkStore, data: NewBookmark, now: nat) returns (r: Result<BookmarkView>)
    requires bookmarks.Valid()
    modifies bookmarks
    ensures bookmarks.Valid() && bookmarks.nextId == old(bookmarks.nextId) + 1
    ensures bookmarks.rows == old(bookmarks.rows)[old(bookmarks.nextId) := data.ToRow(old(bookmarks.nextId), now)]
    ensures r == if data.isDeleted then Err(BookmarkNotFound) else Ok(data.ToRow(old(bookmarks.nextId), now).View())
  {
    var bookmarkId := bookmarks.Create(data, now);
    r := FindBookmarkById(bookmarks, bookmarkId);
  }

  /** updateBookmark: UPDATE_FAILED when no row has the id; otherwise the row looked up again, BOOKMARK_NOT_FOUND if it is deleted. */
  method UpdateBookmark(bookmarks: BookmarkStore, patch: BookmarkPatch, bookmarkId: nat) returns (r: Result<BookmarkView>)
    requires bookmarks.Valid()
    modifies bookmarks
    ensures bookmarks.Valid() && bookmarks.nextId == old(bookmarks.nextId)
    ensures bookmarks.rows == if bookmarkId in old(bookmarks.rows)
      then old(bookmarks.rows)[bookmarkId := patch.ApplyTo(old(bookmarks.rows)[bookmarkId])] else old(bookmarks.rows)
    ensures bookmarkId !in old(bookmarks.rows) ==> r == Err(BookmarkUpdateFailed)
    ensures bookmarkId in old(bookmarks.rows) ==>
      r == if patch.ApplyTo(old(bookmarks.rows)[bookmarkId]).isDeleted then Err(BookmarkNotFound)
           else Ok(patch.ApplyTo(old(bookmarks.rows)[bookmarkId]).View())
  {
    var count := bookmarks.UpdateTitle(patch, bookmarkId);
    if count == 0 {
      r := Err(BookmarkUpdateFailed);
    } else {
      r := FindBookmarkById(bookmarks, bookmarkId);
    }
  }

  /**
   * removeBookmark: BOOKMARK_NOT_FOUND unless a live row has the id; otherwise writes the row back with
   * `isdeleted` set, soft-deletes its image and returns the bookmark as it was read. The row was just read,
   * so the update matches it and DELETE_FAILED is unreachable.
   */
  method RemoveBookmark(bookmarks: BookmarkStore, images: ImageStore, bookmarkId: nat) returns (r: Result<BookmarkView>)
    requires bookmarks.Valid() && images.Valid()
    modifies bookmarks, images
    ensures bookmarks.Valid() && images.Valid()
    ensures bookmarks.nextId == old(bookmarks.nextId) && images.nextId == old(images.nextId)
    ensures r.Ok? <==> bookmarkId in old(bookmarks.rows) && !old(bookmarks.rows)[bookmarkId].isDeleted
    ensures r.Err? ==> r.error == BookmarkNotFound && bookmarks.rows == old(bookmarks.rows) && images.rows == old(images.rows)
    ensures r.Ok? ==>
      var b := old(bookmarks.rows)[bookmarkId];
      && r.value == b.View()
      && bookmarks.rows == old(bookmarks.rows)[bookmarkId := b.(isDeleted := true)]
      && images.rows == if b.imageId in old(images.rows)
         then old(images.rows)[b.imageId := old(images.rows)[b.imageId].(isDeleted := true)] else old(images.rows)
  {
    var current := bookmarks.FetchById(bookmarkId);
    if current.None? {
      return Err(BookmarkNotFound);
    }
    var count := bookmarks.Remove(current.value.AsPatch().(isDeleted := Some(true)), bookmarkId);
    if count == 0 {
      assert false;
    }
    var imageCount := images.Remove(current.value.imageId);
    r := Ok(current.value);
  }

  /** getBookmarksByTitle: title and url of the live bookmarks in the folder whose title contains `title`, ignoring ASCII case. */
  function GetBookmarksByTitle(bookmarks: BookmarkStore, title: string, folderId: nat): (r: seq<TitleUrl>)
    reads bookmarks
    requires bookmarks.Valid()
    ensures forall id ::
      (id in bookmarks.rows && Contains(Lower(bookmarks.rows[id].title), Lower(title))
         && !bookmarks.rows[id].isDeleted && bookmarks.rows[id].folderId == folderId
       ==> bookmarks.rows[id].TitleAndUrl() in r)
    ensures forall t :: t in r ==>
      exists id :: (id in bookmarks.rows && t == bookmarks.rows[id].TitleAndUrl()
                    && Contains(Lower(bookmarks.rows[id].title), Lower(title))
                    && !bookmarks.rows[id].isDeleted && bookmarks.rows[id].folderId == folderId)
  {
    bookmarks.FetchByTitle(title, folderId)
  }

  /** sortByDate: the user's live bookmarks in the folder, ordered by `created_at`. */
  function SortByDate(bookmarks: BookmarkStore, userId: nat, folderId: nat, order: SortOrder): (r: seq<BookmarkItem>)
    reads bookmarks
    requires bookmarks.Valid()
    ensures multiset(r) == multiset(bookmarks.FetchByFolderId(userId, folderId))
    ensures forall v :: v in r ==> v.id in bookmarks.rows
    ensures forall i, j :: 0 <= i < j < |r| ==>
      InOrder(DateKey(bookmarks.rows[r[i].id].createdAt), DateKey(bookmarks.rows[r[j].id].createdAt), order)
  {
    bookmarks.SortBy(BookmarkColumn.CreatedAt, userId, folderId, order)
  }

  /** sortByAlphabet: the user's live bookmarks in the folder, ordered by `title`. */
  function SortByAlphabet(bookmarks: BookmarkStore, userId: nat, folderId: nat, order: SortOrder): (r: seq<BookmarkItem>)
    reads bookmarks
    requires bookmarks.Valid()
    ensures multiset(r) == multiset(bookmarks.FetchByFolderId(userId, folderId))
    ensures forall v :: v in r ==> v.id in bookmarks.rows
    ensures forall i, j :: 0 <= i < j < |r| ==>
      InOrder(TextKey(bookmarks.rows[r[i].id].title), TextKey(bookmarks.rows[r[j].id].title), order)
  {
    bookmarks.SortBy(BookmarkColumn.Title, userId, folderId, order)
  }

  /** updateClickedDate: writes the update object (carrying the click date) on its row; UPDATE_FAILED when no row has the id. */
  method UpdateClickedDate(bookmarks: BookmarkStore, patch: BookmarkPatch, bookmarkId: nat) returns (r: Result<()>)
    requires bookmarks.Valid()
    modifies bookmarks
    ensures bookmarks.Valid() && bookmarks.nextId == old(bookmarks.nextId)
    ensures r.Err? <==> bookmarkId !in old(bookmarks.rows)
    ensures r.Err? ==> r.error == BookmarkUpdateFailed
    ensures bookmarks.rows == if r.Ok?
      then old(bookmarks.rows)[bookmarkId := patch.ApplyTo(old(bookmarks.rows)[bookmarkId])] else old(bookmarks.rows)
  {
    var count := bookmarks.UpdateClickedDate(patch, bookmarkId);
    if count == 0 {
      r := Err(BookmarkUpdateFailed);
    } else {
      r := Ok(());
    }
  }

  /** findRecentClickedBookmarks: the user's recently clicked bookmarks, latest click first; an empty list is a success. */
  function FindRecentClickedBookmarks(bookmarks: BookmarkStore, userId: nat): (r: Result<seq<BookmarkItem>>)
    reads bookmarks
    requires bookmarks.Valid()
    ensures r.Ok?
    ensures multiset(r.value) == multiset(bookmarks.RecentlyClicked(userId))
    ensures forall v :: v in r.value ==>
      (v.id in bookmarks.rows && v == bookmarks.rows[v.id].Item() && bookmarks.rows[v.id].userId == userId
       && bookmarks.rows[v.id].IsRecentlyClicked())
    ensures forall i, j :: 0 <= i < j < |r.value| ==>
      bookmarks.rows[r.value[j].id].clickDate.value <= bookmarks.rows[r.value[i].id].clickDate.value
  {
    var recent := bookmarks.SortRecentlyClickedBookmarkBy(ClickDate, userId, Desc);
    RecentItems(bookmarks, userId, recent);
    Ok(recent)
  }

  /** A list with the same elements as the user's recently clicked bookmarks holds only those bookmarks. */
  lemma RecentItems(bookmarks: BookmarkStore, userId: nat, s: seq<BookmarkItem>)
    requires bookmarks.Valid() && multiset(s) == multiset(bookmarks.RecentlyClicked(userId))
    ensures forall v :: v in s ==>
      (v.id in bookmarks.rows && v == bookmarks.rows[v.id].Item() && bookmarks.rows[v.id].userId == userId
       && bookmarks.rows[v.id].IsRecentlyClicked())
  {
    forall v | v in s
      ensures v in bookmarks.RecentlyClicked(userId)
    {
      assert v in multiset(s);
    }
  }

  /**
   * deleteRecentBookmarkById: writes the bookmark back with `click_date` cleared, on the row with its id
   * only if `userId` owns it; DELETE_FAILED when no such row exists.
   */
  method DeleteRecentBookmarkById(bookmarks: BookmarkStore, bookmark: BookmarkView, userId: nat) returns (r: Result<()>)
    requires bookmarks.Valid()
    modifies bookmarks
    ensures bookmarks.Valid() && bookmarks.nextId == old(bookmarks.nextId)
    ensures r.Ok? <==> bookmark.id in old(bookmarks.rows) && old(bookmarks.rows)[bookmark.id].userId == userId
    ensures r.Err? ==> r.error == BookmarkDeleteFailed && bookmarks.rows == old(bookmarks.rows)
    ensures r.Ok? ==> bookmarks.rows == old(bookmarks.rows)[bookmark.id :=
      bookmark.AsPatch().(clickDate := Some(None)).ApplyTo(old(bookmarks.rows)[bookmark.id])]
    ensures r.Ok? ==> bookmarks.rows[bookmark.id].clickDate == None
    ensures r.Ok? ==> forall u: nat, v :: v in bookmarks.RecentlyClicked(u) ==> v.id != bookmark.id
  {
    var count := bookmarks.RemoveRecentlyClickedBookmark(bookmark.AsPatch().(clickDate := Some(None)), bookmark.id, userId);
    if count == 0 {
      r := Err(BookmarkDeleteFailed);
    } else {
      r := Ok(());
    }
  }

  /** sortRecentBookmarkByDate: the user's recently clicked bookmarks by click date; EMPTY_RECENT_BOOKMARK exactly when there are none. */
  function SortRecentBookmarkByDate(bookmarks: BookmarkStore, userId: nat, order: SortOrder): (r: Result<seq<BookmarkItem>>)
    reads bookmarks
    requires bookmarks.Valid()
    ensures r.Err? <==> forall id :: id in bookmarks.rows && bookmarks.rows[id].userId == userId ==> !bookmarks.rows[id].IsRecentlyClicked()
    ensures r.Err? ==> r.error == EmptyRecentBookmark
    ensures r.Ok? ==> multiset(r.value) == multiset(bookmarks.RecentlyClicked(userId)) && |r.value| > 0
    ensures r.Ok? ==> forall i, j :: 0 <= i < j < |r.value| ==>
      (r.value[i].id in bookmarks.rows && r.value[j].id in bookmarks.rows
       && InOrder(bookmarks.rows[r.value[i].id].Key(ClickDate), bookmarks.rows[r.value[j].id].Key(ClickDate), order))
  {
    var recent := bookmarks.SortRecentlyClickedBookmarkBy(ClickDate, userId, order);
    RecentItems(bookmarks, userId, recent);
    NoneRecent(bookmarks, userId, recent);
    if |recent| == 0 then Err(EmptyRecentBookmark) else Ok(recent)
  }

  /** sortRecentBookmarkByAlphabet: the user's recently clicked bookmarks by title; BOOKMARK_EMPTY exactly when there are none. */
  function SortRecentBookmarkByAlphabet(bookmarks: BookmarkStore, userId: nat, order: SortOrder): (r: Result<seq<BookmarkItem>>)
    reads bookmarks
    requires bookmarks.Valid()
    ensures r.Err? <==> forall id :: id in bookmarks.rows && bookmarks.rows[id].userId == userId ==> !bookmarks.rows[id].IsRecentlyClicked()
    ensures r.Err? ==> r.error == BookmarkEmpty
    ensures r.Ok? ==> multiset(r.value) == multiset(bookmarks.RecentlyClicked(userId)) && |r.value| > 0
    ensures r.Ok? ==> forall i, j :: 0 <= i < j < |r.value| ==>
      (r.value[i].id in bookmarks.rows && r.value[j].id in bookmarks.rows
       && InOrder(TextKey(bookmarks.rows[r.value[i].id].title), TextKey(bookmarks.rows[r.value[j].id].title), order))
  {
    var recent := bookmarks.SortRecentlyClickedBookmarkBy(Title, userId, order);
    NoneRecent(bookmarks, userId, recent);
    if |recent| == 0 then Err(BookmarkEmpty) else Ok(recent)
  }

  /** A list with the same elements as the user's recently clicked bookmarks is empty exactly when the user has none. */
  lemma NoneRecent(bookmarks: BookmarkStore, userId: nat, s: seq<BookmarkItem>)
    requires bookmarks.Valid() && multiset(s) == multiset(bookmarks.RecentlyClicked(userId))
    ensures |s| == 0 <==> forall id :: id in bookmarks.rows && bookmarks.rows[id].userId == userId ==> !bookmarks.rows[id].IsRecentlyClicked()
  {
    var recent := bookmarks.RecentlyClicked(userId);
    assert |s| == |multiset(s)| == |recent|;
    if |recent| > 0 {
      assert recent[0] in recent;
    }
  }

  /** filterRecentBookmarkByChip: the user's recently clicked bookmarks carrying the chip; EMPTY_RECENT_BOOKMARK exactly when there are none. */
  function FilterRecentBookmarkByChip(bookmarks: BookmarkStore, userId: nat, chipId: nat): (r: Result<seq<BookmarkItem>>)
    reads bookmarks
    requires bookmarks.Valid()
    ensures r.Err? <==> forall id ::
      (id in bookmarks.rows && bookmarks.rows[id].userId == userId && bookmarks.rows[id].chipId == chipId
       ==> !bookmarks.rows[id].IsRecentlyClicked())
    ensures r.Err? ==> r.error == EmptyRecentBookmark
    ensures r.Ok? ==> forall v :: v in r.value ==>
      (v.id in bookmarks.rows && v == bookmarks.rows[v.id].Item() && bookmarks.rows[v.id].userId == userId
       && bookmarks.rows[v.id].chipId == chipId && bookmarks.rows[v.id].IsRecentlyClicked())
    ensures r.Ok? ==> forall id ::
      (id in bookmarks.rows && bookmarks.rows[id].userId == userId && bookmarks.rows[id].chipId == chipId
       && bookmarks.rows[id].IsRecentlyClicked()
       ==> bookmarks.rows[id].Item() in r.value)
  {
    var found := bookmarks.FilterRecentlyClickedBookmarksByChip(userId, chipId);
    if |found| == 0 then Err(EmptyRecentBookmark) else assert found[0] in found; Ok(found)
  }

  /** getRecentBookmarksByTitle: title and url of every owner's recently clicked bookmarks whose title contains `title`. */
  function GetRecentBookmarksByTitle(bookmarks: BookmarkStore, title: string): (r: seq<TitleUrl>)
    reads bookmarks
    requires bookmarks.Valid()
    ensures forall id ::
      (id in bookmarks.rows && Contains(Lower(bookmarks.rows[id].title), Lower(title)) && bookmarks.rows[id].IsRecentlyClicked()
       ==> bookmarks.rows[id].TitleAndUrl() in r)
    ensures forall t :: t in r ==>
      exists id :: (id in bookmarks.rows && t == bookmarks.rows[id].TitleAndUrl()
                    && Contains(Lower(bookmarks.rows[id].title), Lower(title)) && bookmarks.rows[id].IsRecentlyClicked())
  {
    bookmarks.FetchRecentlyClickedBookmarksByTitle(title)
  }
}

/** The folder service: reads that map a missing row to an error, writes that read back, and the recursive delete. */
module FolderService {
  import opened Wrappers
  import opened Tables
  import opened Folders
  import opened Bookmarks
  import opened Cascade

  /** findAllFolders: the user's live top-level folders. An array is never falsy, so an empty list is a success, not FOLDER_EMPTY. */
  function FindAllFolders(folders: FolderStore, userId: nat): (r: Result<seq<FolderView>>)
    reads folders
    requires folders.Valid()
    ensures r.Ok?
    ensures forall v :: v in r.value ==>
      (v.id in folders.rows && v == folders.rows[v.id].View() && folders.rows[v.id].userId == userId
       && folders.rows[v.id].parent == None && !folders.rows[v.id].isDeleted)
    ensures forall id ::
      (id in folders.rows && folders.rows[id].userId == userId && folders.rows[id].parent == None && !folders.rows[id].isDeleted
       ==> folders.rows[id].View() in r.value)
  {
    Ok(folders.FetchAllParent(userId))
  }

  /** findAllNestedFolders: the user's live folders directly inside `parentId`; an empty list is a success. */
  function FindAllNestedFolders(folders: FolderStore, userId: nat, parentId: nat): (r: Result<seq<FolderView>>)
    reads folders
    requires folders.Valid()
    ensures r.Ok?
    ensures forall v :: v in r.value ==>
      (v.id in folders.rows && v == folders.rows[v.id].View() && folders.rows[v.id].userId == userId
       && folders.rows[v.id].parent == Some(parentId) && !folders.rows[v.id].isDeleted)
    ensures forall id ::
      (id in folders.rows && folders.rows[id].userId == userId && folders.rows[id].parent == Some(parentId)
         && !folders.rows[id].isDeleted
       ==> folders.rows[id].View() in r.value)
  {
    Ok(folders.FetchAllNested(userId, parentId))
  }

  /** findFolderById: the live folder with this id, or FOLDER_NOT_FOUND. */
  function FindFolderById(folders: FolderStore, folderId: nat): (r: Result<FolderView>)
    reads folders
    requires folders.Valid()
    ensures r.Ok? <==> folderId in folders.rows && !folders.rows[folderId].isDeleted
    ensures r.Ok? ==> r.value == folders.rows[folderId].View()
    ensures r.Err? ==> r.error == FolderNotFound
  {
    match folders.FetchById(folderId)
    case None => Err(FolderNotFound)
    case Some(folder) => Ok(folder)
  }

  /**
   * addFolders: inserts the folder and reads it back by its new id. `create` always returns an
   * object, so ADD_FAILED cannot be thrown; the read-back is `undefined` for a row inserted as deleted.
   */
  method AddFolders(folders: FolderStore, data: NewFolder, now: nat) returns (r: Option<FolderView>)
    requires folders.Valid()
    modifies folders
    ensures folders.Valid() && folders.nextId == old(folders.nextId) + 1
    ensures folders.rows == old(folders.rows)[old(folders.nextId) := data.ToRow(old(folders.nextId), now)]
    ensures r == if data.isDeleted then None else Some(data.ToRow(old(folders.nextId), now).View())
  {
    var folderId := folders.Create(data, now);
    r := folders.FetchById(folderId);
  }

  /**
   * updateFolder: writes the patch on the row, deleted or not; UPDATE_FOLDER when no row has the id,
   * otherwise the live row read back, which is `undefined` when the row is (or became) deleted.
   */
  method UpdateFolder(folders: FolderStore, patch: FolderPatch, folderId: nat) returns (r: Result<Option<FolderView>>)
    requires folders.Valid()
    modifies folders
    ensures folders.Valid() && folders.nextId == old(folders.nextId)
    ensures folders.rows == if folderId in old(folders.rows)
      then old(folders.rows)[folderId := patch.ApplyTo(old(folders.rows)[folderId])] else old(folders.rows)
    ensures r.Err? <==> folderId !in old(folders.rows)
    ensures r.Err? ==> r.error == FolderUpdateFailed
    ensures r.Ok? ==> r.value == if patch.ApplyTo(old(folders.rows)[folderId]).isDeleted then None
                                 else Some(patch.ApplyTo(old(folders.rows)[folderId]).View())
  {
    var count := folders.Update(patch, folderId);
    if count == 0 {
      r := Err(FolderUpdateFailed);
    } else {
      r := Ok(folders.FetchById(folderId));
    }
  }

  /**
   * removeFolder: deletes every child (found by `fetchAllByFolderId`, whatever its owner or state)
   * recursively, then soft-deletes the folder row, then the bookmarks filed in it. Nothing checks that
   * the folder exists, so no input makes it fail. `rank` is a witness that the parent links have no cycle;
   * `steps` records the writes in the order they are made.
   */
  method RemoveFolder(folders: FolderStore, bookmarks: BookmarkStore, folderId: nat, ghost rank: map<nat, nat>)
    returns (ghost steps: seq<Step>)
    requires folders.Valid() && bookmarks.Valid() && Ranking(folders.rows, rank)
    modifies folders, bookmarks
    ensures folders.Valid() && bookmarks.Valid()
    ensures folders.nextId == old(folders.nextId) && bookmarks.nextId == old(bookmarks.nextId)
    ensures folders.rows == CascadeFolders(old(folders.rows), old(folders.nextId), rank, folderId)
    ensures bookmarks.rows == CascadeBookmarks(old(folders.rows), old(folders.nextId), rank, old(bookmarks.rows), folderId)
    ensures steps == Steps(PostOrder(old(folders.rows), old(folders.nextId), rank, folderId))
    decreases Measure(rank, folderId)
  {
    ghost var rows0, marks0, n := folders.rows, bookmarks.rows, folders.nextId;
    ghost var ids := ChildIds(rows0, n, folderId);
    var subfolders := folders.FetchAllByFolderId(folderId);
    steps := [];
    for i := 0 to |subfolders|
      invariant folders.Valid() && bookmarks.Valid()
      invariant folders.nextId == n && bookmarks.nextId == old(bookmarks.nextId)
      invariant folders.rows == MarkDeleted(rows0, Subtrees(rows0, n, rank, folderId, i))
      invariant bookmarks.rows == MarkInFolders(marks0, Subtrees(rows0, n, rank, folderId, i))
      invariant steps == Steps(Subtrees(rows0, n, rank, folderId, i))
    {
      var child := subfolders[i].id;
      NextChild(rows0, marks0, n, rank, folderId, i);
      var childSteps := RemoveFolder(folders, bookmarks, child, rank);
      steps := steps + childSteps;
    }
    var folderCount := folders.Remove(folderId);
    steps := steps + [FolderMarked(folderId)];
    var bookmarkCount := bookmarks.RemoveByFolderid(folderId);
    steps := steps + [BookmarksMarked(folderId)];
    LastWrites(rows0, marks0, n, rank, folderId);
  }

  /** sortByDate: the user's live folders inside `folderId`, ordered by `created_at`. */
  function SortByDate(folders: FolderStore, userId: nat, folderId: nat, order: SortOrder): (r: seq<Folder>)
    reads folders
    requires folders.Valid()
    ensures multiset(r) == multiset(folders.LiveChildren(userId, folderId))
    ensures forall i, j :: 0 <= i < j < |r| ==> InOrder(DateKey(r[i].createdAt), DateKey(r[j].createdAt), order)
  {
    folders.SortBy(FolderColumn.CreatedAt, userId, folderId, order)
  }

  /** sortByAlphabet: the user's live folders inside `folderId`, ordered by `name`. */
  function SortByAlphabet(folders: FolderStore, userId: nat, folderId: nat, order: SortOrder): (r: seq<Folder>)
    reads folders
    requires folders.Valid()
    ensures multiset(r) == multiset(folders.LiveChildren(userId, folderId))
    ensures forall i, j :: 0 <= i < j < |r| ==> InOrder(TextKey(r[i].name), TextKey(r[j].name), order)
  {
    folders.SortBy(FolderColumn.Name, userId, folderId, order)
  }
}

/** The `folders` table and the repository that reads and writes it. */
module Folders {
  import opened Wrappers
  import opened Tables

  /** A row of `folders`; `parent` is the nullable self-reference `folder_id`. */
  datatype Folder = Folder(
    id: nat, name: string, imageId: nat, userId: nat, parent: Option<nat>,
    isDeleted: bool, createdBy: string, updatedBy: string, createdAt: nat)
  {
    /** The columns `id, name, image_id, user_id, folder_id` that the filtered reads select. */
    function View(): FolderView
    {
      FolderView(id, name, imageId, userId, parent)
    }

    /** The value of the column `sortBy` orders on. */
    function Key(column: FolderColumn): SortKey
    {
      match column
      case CreatedAt => DateKey(createdAt)
      case Name => TextKey(name)
    }
  }

  datatype FolderView = FolderView(id: nat, name: string, imageId: nat, userId: nat, parent: Option<nat>)

  /** The columns `sortBy` is called with: `created_at` and `name`. */
  datatype FolderColumn = CreatedAt | Name

  /** The column values an insert supplies; the database chooses `id` and `created_at`. */
  datatype NewFolder = NewFolder(
    name: string, imageId: nat, userId: nat, parent: Option<nat>,
    isDeleted: bool, createdBy: string, updatedBy: string)
  {
    function ToRow(id: nat, now: nat): Folder
    {
      Folder(id, name, imageId, userId, parent, isDeleted, createdBy, updatedBy, now)
    }
  }

  /** The columns an update object carries; `None` leaves the column as it is. */
  datatype FolderPatch = FolderPatch(
    name: Option<string>, imageId: Option<nat>, userId: Option<nat>, parent: Option<Option<nat>>,
    isDeleted: Option<bool>, createdBy: Option<string>, updatedBy: Option<string>)
  {
    function ApplyTo(f: Folder): Folder
    {
      f.(name := if name.Some? then name.value else f.name,
         imageId := if imageId.Some? then imageId.value else f.imageId,
         userId := if userId.Some? then userId.value else f.userId,
         parent := if parent.Some? then parent.value else f.parent,
         isDeleted := if isDeleted.Some? then isDeleted.value else f.isDeleted,
         createdBy := if createdBy.Some? then createdBy.value else f.createdBy,
         updatedBy := if updatedBy.Some? then updatedBy.value else f.updatedBy)
    }
  }

  /** The where-clause `folder_id = parentId`. */
  function ChildOf(parentId: nat): Folder -> bool
  {
    (f: Folder) => f.parent == Some(parentId)
  }

  /** The ids of the rows whose `folder_id` is `parentId`, deleted or not, in id order. */
  function ChildIds(rows: map<nat, Folder>, n: nat, parentId: nat): seq<nat>
  {
    Scan(rows, n, ChildOf(parentId))
  }

  /** The table after setting `isdeleted` on every row whose id is listed in `ids`. */
  function MarkDeleted(rows: map<nat, Folder>, ids: seq<nat>): map<nat, Folder>
  {
    map id | id in rows :: if id in ids then rows[id].(isDeleted := true) else rows[id]
  }

  class FolderStore {
    var rows: map<nat, Folder>
    var nextId: nat

    /** Every row is stored under its own id, and ids come from a serial counter starting at 1. */
    ghost predicate Valid()
      reads this
    {
      1 <= nextId && forall id :: id in rows ==> 1 <= id < nextId && rows[id].id == id
    }

    constructor ()
      ensures Valid() && rows == map[] && nextId == 1
    {
      rows := map[];
      nextId := 1;
    }

    /** fetchAllParent: the user's live top-level folders. */
    function FetchAllParent(userId: nat): (r: seq<FolderView>)
      reads this
      requires Valid()
      ensures forall v :: v in r ==>
        (v.id in rows && v == rows[v.id].View()
         && rows[v.id].userId == userId && rows[v.id].parent == None && !rows[v.id].isDeleted)
      ensures forall id ::
        (id in rows && rows[id].userId == userId && rows[id].parent == None && !rows[id].isDeleted
         ==> rows[id].View() in r)
    {
      Query(rows, nextId, (f: Folder) => f.userId == userId && f.parent == None && !f.isDeleted, (f: Folder) => f.View())
    }

    /** fetchAllNested: the user's live folders directly inside `parentId`. */
    function FetchAllNested(userId: nat, parentId: nat): (r: seq<FolderView>)
      reads this
      requires Valid()
      ensures forall v :: v in r ==>
        (v.id in rows && v == rows[v.id].View()
         && rows[v.id].userId == userId && rows[v.id].parent == Some(parentId) && !rows[v.id].isDeleted)
      ensures forall id ::
        (id in rows && rows[id].userId == userId && rows[id].parent == Some(parentId) && !rows[id].isDeleted
         ==> rows[id].View() in r)
    {
      Query(rows, nextId, (f: Folder) => f.userId == userId && f.parent == Some(parentId) && !f.isDeleted, (f: Folder) => f.View())
    }

    /** fetchById: the first live row with this id, projected; `None` is `undefined`. */
    function FetchById(folderId: nat): (r: Option<FolderView>)
      reads this
      requires Valid()
      ensures r.Some? <==> folderId in rows && !rows[folderId].isDeleted
      ensures r.Some? ==> r.value == rows[folderId].View()
    {
      var hits := Query(rows, nextId, (f: Folder) => f.id == folderId && !f.isDeleted, (f: Folder) => f.View());
      if |hits| == 0 then None else assert hits[0] in hits; Some(hits[0])
    }

    /**
     * fetchAllByFolderId: every row whose parent is `folderId`, with no owner or `isdeleted` filter, all columns.
     * The source names the column `'folder_id '`, with a trailing space; it is modelled as `folder_id`.
     */
    function FetchAllByFolderId(folderId: nat): (r: seq<Folder>)
      reads this
      requires Valid()
      ensures |r| == |ChildIds(rows, nextId, folderId)|
      ensures forall i :: 0 <= i < |r| ==> r[i].id == ChildIds(rows, nextId, folderId)[i]
      ensures forall f :: f in r ==> f.id in rows && rows[f.id] == f && f.parent == Some(folderId)
      ensures forall id :: id in rows && rows[id].parent == Some(folderId) ==> rows[id] in r
    {
      var ids := ChildIds(rows, nextId, folderId);
      var m := rows;
      var r := seq(|ids|, i requires 0 <= i < |ids| => m[ids[i]]);
      assert forall id :: id in rows && rows[id].parent == Some(folderId) ==> rows[id] in r by {
        forall id | id in rows && rows[id].parent == Some(folderId)
          ensures rows[id] in r
        {
          assert id in ids;
          var i :| 0 <= i < |ids| && ids[i] == id;
          assert r[i] == rows[id];
        }
      }
      r
    }

    /** The where-clause of sortBy: the user's live folders directly inside `folderId`, all columns, in id order. */
    function LiveChildren(userId: nat, folderId: nat): (r: seq<Folder>)
      reads this
      requires Valid()
      ensures forall f :: f in r ==>
        f.id in rows && rows[f.id] == f && f.userId == userId && f.parent == Some(folderId) && !f.isDeleted
      ensures forall id ::
        (id in rows && rows[id].userId == userId && rows[id].parent == Some(folderId) && !rows[id].isDeleted
         ==> rows[id] in r)
    {
      Query(rows, nextId, (f: Folder) => f.userId == userId && f.parent == Some(folderId) && !f.isDeleted, (f: Folder) => f)
    }

    /** sortBy: the same rows as `LiveChildren`, ordered by `column` in direction `order`. */
    function SortBy(column: FolderColumn, userId: nat, folderId: nat, order: SortOrder): (r: seq<Folder>)
      reads this
      requires Valid()
      ensures multiset(r) == multiset(LiveChildren(userId, folderId))
      ensures forall i, j :: 0 <= i < j < |r| ==> InOrder(r[i].Key(column), r[j].Key(column), order)
    {
      SortRows(LiveChildren(userId, folderId), (f: Folder) => f.Key(column), order)
    }

    /** create: inserts a row under the next serial id and returns that id. */
    method Create(data: NewFolder, now: nat) returns (folderId: nat)
      requires Valid()
      modifies this
      ensures Valid()
      ensures folderId == old(nextId) && folderId !in old(rows)
      ensures rows == old(rows)[folderId := data.ToRow(folderId, now)]
      ensures nextId == old(nextId) + 1
    {
      folderId := nextId;
      rows := rows[folderId := data.ToRow(folderId, now)];
      nextId := nextId + 1;
    }

    /** update: writes the patch's columns on the row with this id, deleted or not; returns the number of rows matched. */
    method Update(patch: FolderPatch, folderId: nat) returns (count: nat)
      requires Valid()
      modifies this
      ensures Valid() && nextId == old(nextId)
      ensures count == if folderId in old(rows) then 1 else 0
      ensures rows == if folderId in old(rows) then old(rows)[folderId := patch.ApplyTo(old(rows)[folderId])] else old(rows)
    {
      if folderId in rows {
        rows := rows[folderId := patch.ApplyTo(rows[folderId])];
        count := 1;
      } else {
        count := 0;
      }
    }

    /** remove: the soft delete; sets `isdeleted` on the row with this id and on no other. */
    method Remove(folderId: nat) returns (count: nat)
      requires Valid()
      modifies this
      ensures Valid() && nextId == old(nextId)
      ensures count == if folderId in old(rows) then 1 else 0
      ensures rows.Keys == old(rows).Keys
      ensures folderId in rows ==> rows[folderId] == old(rows)[folderId].(isDeleted := true)
      ensures forall id :: id in rows && id != folderId ==> rows[id] == old(rows)[id]
      ensures rows == MarkDeleted(old(rows), [folderId])
    {
      if folderId in rows {
        rows := rows[folderId := rows[folderId].(isDeleted := true)];
        count := 1;
      } else {
        count := 0;
      }
      assert rows == MarkDeleted(old(rows), [folderId]);
    }
  }
}

/** The `chips` table (tags a user attaches to bookmarks) and the repository that reads and writes it. */
module Chips {
  import opened Wrappers
  import opened Tables

  datatype Chip = Chip(
    id: nat, name: string, userId: nat, folderId: nat, createdBy: string, updatedBy: string, isDeleted: bool)
  {
    /** The columns `id, name, user_id, folder_id` that the reads select. */
    function View(): ChipView
    {
      ChipView(id, name, userId, folderId)
    }
  }

  datatype ChipView = ChipView(id: nat, name: string, userId: nat, folderId: nat)

  /** The column values an insert supplies; the database chooses `id`. */
  datatype NewChip = NewChip(name: string, userId: nat, folderId: nat, createdBy: string, updatedBy: string, isDeleted: bool)
  {
    function ToRow(id: nat): Chip
    {
      Chip(id, name, userId, folderId, createdBy, updatedBy, isDeleted)
    }
  }

  /** The columns an update object carries; `None` leaves the column as it is. */
  datatype ChipPatch = ChipPatch(
    name: Option<string>, userId: Option<nat>, folderId: Option<nat>,
    createdBy: Option<string>, updatedBy: Option<string>, isDeleted: Option<bool>)
  {
    function ApplyTo(c: Chip): Chip
    {
      c.(name := if name.Some? then name.value else c.name,
         userId := if userId.Some? then userId.value else c.userId,
         folderId := if folderId.Some? then folderId.value else c.folderId,
         createdBy := if createdBy.Some? then createdBy.value else c.createdBy,
         updatedBy := if updatedBy.Some? then updatedBy.value else c.updatedBy,
         isDeleted := if isDeleted.Some? then isDeleted.value else c.isDeleted)
    }
  }

  class ChipStore {
    var rows: map<nat, Chip>
    var nextId: nat

    /** Every row is stored under its own id, and ids come from a serial counter starting at 1. */
    ghost predicate Valid()
      reads this
    {
      1 <= nextId && forall id :: id in rows ==> 1 <= id < nextId && rows[id].id == id
    }

    constructor ()
      ensures Valid() && rows == map[] && nextId == 1
    {
      rows := map[];
      nextId := 1;
    }

    /** fetchById: the first live row with this id, projected; `None` is `undefined`. */
    function FetchById(chipId: nat): (r: Option<ChipView>)
      reads this
      requires Valid()
      ensures r.Some? <==> chipId in rows && !rows[chipId].isDeleted
      ensures r.Some? ==> r.value == rows[chipId].View()
    {
      var hits := Query(rows, nextId, (c: Chip) => c.id == chipId && !c.isDeleted, (c: Chip) => c.View());
      if |hits| == 0 then None else assert hits[0] in hits; Some(hits[0])
    }

    /** fetchAll: the user's live chips. */
    function FetchAll(userId: nat): (r: seq<ChipView>)
      reads this
      requires Valid()
      ensures forall v :: v in r ==>
        (v.id in rows && v == rows[v.id].View() && rows[v.id].userId == userId && !rows[v.id].isDeleted)
      ensures forall id :: id in rows && rows[id].userId == userId && !rows[id].isDeleted ==> rows[id].View() in r
    {
      Query(rows, nextId, (c: Chip) => c.userId == userId && !c.isDeleted, (c: Chip) => c.View())
    }

    /** create: inserts a row under the next serial id and returns that id. */
    method Create(data: NewChip) returns (chipId: nat)
      requires Valid()
      modifies this
      ensures Valid()
      ensures chipId == old(nextId) && chipId !in old(rows)
      ensures rows == old(rows)[chipId := data.ToRow(chipId)]
      ensures nextId == old(nextId) + 1
    {
      chipId := nextId;
      rows := rows[chipId := data.ToRow(chipId)];
      nextId := nextId + 1;
    }

    /** update: writes the patch's columns on the row with this id, deleted or not; returns the number of rows matched. */
    method Update(patch: ChipPatch, chipId: nat) returns (count: nat)
      requires Valid()
      modifies this
      ensures Valid() && nextId == old(nextId)
      ensures count == if chipId in old(rows) then 1 else 0
      ensures rows == if chipId in old(rows) then old(rows)[chipId := patch.ApplyTo(old(rows)[chipId])] else old(rows)
    {
      if chipId in rows {
        rows := rows[chipId := patch.ApplyTo(rows[chipId])];
        count := 1;
      } else {
        count := 0;
      }
    }

    /** remove: the soft delete of the row with this id; returns the number of rows matched. */
    method Remove(chipId: nat) returns (count: nat)
      requires Valid()
      modifies this
      ensures Valid() && nextId == old(nextId)
      ensures count == if chipId in old(rows) then 1 else 0
      ensures rows == if chipId in old(rows) then old(rows)[chipId := old(rows)[chipId].(isDeleted := true)] else old(rows)
    {
      if chipId in rows {
        rows := rows[chipId := rows[chipId].(isDeleted := true)];
        count := 1;
      } else {
        count := 0;
      }
    }
  }
}

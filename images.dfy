/** The `images` table and the repository that reads and writes it. */
module Images {
  import opened Wrappers
  import opened Tables

  /** A row of `images`; `type` says what the image belongs to. */
  datatype Image = Image(
    id: nat, name: string, url: string, kind: string, createdBy: string, updatedBy: string, isDeleted: bool)
  {
    /** The columns `id, name, url, type` that `fetchById` selects. */
    function View(): ImageView
    {
      ImageView(id, name, url, kind)
    }
  }

  datatype ImageView = ImageView(id: nat, name: string, url: string, kind: string)

  /** The column values an insert supplies; the database chooses `id`. */
  datatype NewImage = NewImage(name: string, url: string, kind: string, createdBy: string, updatedBy: string, isDeleted: bool)
  {
    function ToRow(id: nat): Image
    {
      Image(id, name, url, kind, createdBy, updatedBy, isDeleted)
    }
  }

  /** The columns an update object carries; `None` leaves the column as it is. */
  datatype ImagePatch = ImagePatch(
    name: Option<string>, url: Option<string>, kind: Option<string>,
    createdBy: Option<string>, updatedBy: Option<string>, isDeleted: Option<bool>)
  {
    function ApplyTo(m: Image): Image
    {
      m.(name := if name.Some? then name.value else m.name,
         url := if url.Some? then url.value else m.url,
         kind := if kind.Some? then kind.value else m.kind,
         createdBy := if createdBy.Some? then createdBy.value else m.createdBy,
         updatedBy := if updatedBy.Some? then updatedBy.value else m.updatedBy,
         isDeleted := if isDeleted.Some? then isDeleted.value else m.isDeleted)
    }
  }

  class ImageStore {
    var rows: map<nat, Image>
    var nextId: nat

    /** Every row is stored under its own id, and ids come from a serial counter starting at 1. */
    ghost predicate Valid()
      reads this
    {
      1 <= nextId && forall id :: id in rows ==> 1 <= id < nextId && rows[id].id == id
    }

    constructor ()
      ensures Valid() && rows == map[] && nextId == 1
    {
      rows := map[];
      nextId := 1;
    }

    /** fetchById: the first live row with this id, projected; `None` is `undefined`. */
    function FetchById(imageId: nat): (r: Option<ImageView>)
      reads this
      requires Valid()
      ensures r.Some? <==> imageId in rows && !rows[imageId].isDeleted
      ensures r.Some? ==> r.value == rows[imageId].View()
    {
      var hits := Query(rows, nextId, (m: Image) => m.id == imageId && !m.isDeleted, (m: Image) => m.View());
      if |hits| == 0 then None else assert hits[0] in hits; Some(hits[0])
    }

    /** create: inserts a row under the next serial id and returns that id. */
    method Create(data: NewImage) returns (imageId: nat)
      requires Valid()
      modifies this
      ensures Valid()
      ensures imageId == old(nextId) && imageId !in old(rows)
      ensures rows == old(rows)[imageId := data.ToRow(imageId)]
      ensures nextId == old(nextId) + 1
      ensures FetchById(imageId) == if data.isDeleted then None else Some(data.ToRow(imageId).View())
    {
      imageId := nextId;
      rows := rows[imageId := data.ToRow(imageId)];
      nextId := nextId + 1;
    }

    /** update: writes the patch's columns on the row with this id, deleted or not; returns the number of rows matched. */
    method Update(patch: ImagePatch, imageId: nat) returns (count: nat)
      requires Valid()
      modifies this
      ensures Valid() && nextId == old(nextId)
      ensures count == if imageId in old(rows) then 1 else 0
      ensures rows == if imageId in old(rows) then old(rows)[imageId := patch.ApplyTo(old(rows)[imageId])] else old(rows)
    {
      if imageId in rows {
        rows := rows[imageId := patch.ApplyTo(rows[imageId])];
        count := 1;
      } else {
        count := 0;
      }
    }

    /** remove: the soft delete of the row with this id; returns the number of rows matched. */
    method Remove(imageId: nat) returns (count: nat)
      requires Valid()
      modifies this
      ensures Valid() && nextId == old(nextId)
      ensures count == if imageId in old(rows) then 1 else 0
      ensures rows == if imageId in old(rows) then old(rows)[imageId := old(rows)[imageId].(isDeleted := true)] else old(rows)
    {
      if imageId in rows {
        rows := rows[imageId := rows[imageId].(isDeleted := true)];
        count := 1;
      } else {
        count := 0;
      }
    }
  }
}

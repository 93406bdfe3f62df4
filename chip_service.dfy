/** The chip service. */
module ChipService {
  import opened Wrappers
  import opened Chips

  /** findChipById: the live chip with this id, or CHIP_NOTFOUND. */
  function FindChipById(chips: ChipStore, chipId: nat): (r: Result<ChipView>)
    reads chips
    requires chips.Valid()
    ensures r.Ok? <==> chipId in chips.rows && !chips.rows[chipId].isDeleted
    ensures r.Ok? ==> r.value == chips.rows[chipId].View()
    ensures r.Err? ==> r.error == ChipNotFound
  {
    match chips.FetchById(chipId)
    case None => Err(ChipNotFound)
    case Some(chip) => Ok(chip)
  }

  /** findAllChips: the user's live chips. An array is never falsy, so an empty list is a success, not CHIP_NOT_AVAILABLE. */
  function FindAllChips(chips: ChipStore, userId: nat): (r: Result<seq<ChipView>>)
    reads chips
    requires chips.Valid()
    ensures r.Ok?
    ensures forall v :: v in r.value ==>
      (v.id in chips.rows && v == chips.rows[v.id].View() && chips.rows[v.id].userId == userId && !chips.rows[v.id].isDeleted)
    ensures forall id ::
      (id in chips.rows && chips.rows[id].userId == userId && !chips.rows[id].isDeleted
       ==> chips.rows[id].View() in r.value)
  {
    Ok(chips.FetchAll(userId))
  }

  /**
   * addChip: inserts the chip and looks it up by its new id. `create` always returns an object, so
   * ADD_FAILED cannot be thrown; the lookup throws CHIP_NOTFOUND for a row inserted as deleted.
   */
  method AddChip(chips: ChipStore, data: NewChip) returns (r: Result<ChipView>)
    requires chips.Valid()
    modifies chips
    ensures chips.Valid() && chips.nextId == old(chips.nextId) + 1
    ensures chips.rows == old(chips.rows)[old(chips.nextId) := data.ToRow(old(chips.nextId))]
    ensures r == if data.isDeleted then Err(ChipNotFound) else Ok(data.ToRow(old(chips.nextId)).View())
  {
    var chipId := chips.Create(data);
    r := FindChipById(chips, chipId);
  }

  /** updateChip: UPDATE_FAILED when no row has the id; otherwise the row looked up again, CHIP_NOTFOUND if it is deleted. */
  method UpdateChip(chips: ChipStore, patch: ChipPatch, chipId: nat) returns (r: Result<ChipView>)
    requires chips.Valid()
    modifies chips
    ensures chips.Valid() && chips.nextId == old(chips.nextId)
    ensures chips.rows == if chipId in old(chips.rows)
      then old(chips.rows)[chipId := patch.ApplyTo(old(chips.rows)[chipId])] else old(chips.rows)
    ensures chipId !in old(chips.rows) ==> r == Err(ChipUpdateFailed)
    ensures chipId in old(chips.rows) ==>
      r == if patch.ApplyTo(old(chips.rows)[chipId]).isDeleted then Err(ChipNotFound)
           else Ok(patch.ApplyTo(old(chips.rows)[chipId]).View())
  {
    var count := chips.Update(patch, chipId);
    if count == 0 {
      r := Err(ChipUpdateFailed);
    } else {
      r := FindChipById(chips, chipId);
    }
  }

  /**
   * removeChip: the lookup throws CHIP_NOTFOUND for a missing or deleted chip, so neither REMOVE_FAILED
   * nor 'Failed to delete chip' can be thrown; otherwise soft-deletes the chip and returns it as it was read.
   */
  method RemoveChip(chips: ChipStore, chipId: nat) returns (r: Result<ChipView>)
    requires chips.Valid()
    modifies chips
    ensures chips.Valid() && chips.nextId == old(chips.nextId)
    ensures r.Ok? <==> chipId in old(chips.rows) && !old(chips.rows)[chipId].isDeleted
    ensures r.Err? ==> r.error == ChipNotFound && chips.rows == old(chips.rows)
    ensures r.Ok? ==> r.value == old(chips.rows)[chipId].View()
                      && chips.rows == old(chips.rows)[chipId := old(chips.rows)[chipId].(isDeleted := true)]
  {
    var current := FindChipById(chips, chipId);
    if current.Err? {
      return current;
    }
    var count := chips.Remove(chipId);
    if count == 0 {
      assert false;
    }
    r := current;
  }
}

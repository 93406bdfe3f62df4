/** The image service. */
module ImageService {
  import opened Wrappers
  import opened Images

  /** findImage: the live image with this id, or IMAGE_NOT_FOUND. */
  function FindImage(images: ImageStore, imageId: nat): (r: Result<ImageView>)
    reads images
    requires images.Valid()
    ensures r.Ok? <==> imageId in images.rows && !images.rows[imageId].isDeleted
    ensures r.Ok? ==> r.value == images.rows[imageId].View()
    ensures r.Err? ==> r.error == ImageNotFound
  {
    match images.FetchById(imageId)
    case None => Err(ImageNotFound)
    case Some(image) => Ok(image)
  }

  /**
   * saveImage: stamps `created_by` and `updated_by` with the user's name, inserts the image and
   * reads it back by its new id without checking the result.
   */
  method SaveImage(images: ImageStore, data: NewImage, username: string) returns (r: Option<ImageView>)
    requires images.Valid()
    modifies images
    ensures images.Valid() && images.nextId == old(images.nextId) + 1
    ensures images.rows == old(images.rows)[old(images.nextId) := data.(createdBy := username, updatedBy := username).ToRow(old(images.nextId))]
    ensures r == if data.isDeleted then None else Some(ImageView(old(images.nextId), data.name, data.url, data.kind))
  {
    var imageId := images.Create(data.(createdBy := username, updatedBy := username));
    r := images.FetchById(imageId);
  }

  /** updateImage: UPLOAD_FAILED when no row has the id; otherwise the live row read back, `None` if it is deleted. */
  method UpdateImage(images: ImageStore, patch: ImagePatch, imageId: nat) returns (r: Result<Option<ImageView>>)
    requires images.Valid()
    modifies images
    ensures images.Valid() && images.nextId == old(images.nextId)
    ensures images.rows == if imageId in old(images.rows)
      then old(images.rows)[imageId := patch.ApplyTo(old(images.rows)[imageId])] else old(images.rows)
    ensures r.Err? <==> imageId !in old(images.rows)
    ensures r.Err? ==> r.error == ImageUploadFailed
    ensures r.Ok? ==> r.value == if patch.ApplyTo(old(images.rows)[imageId]).isDeleted then None
                                 else Some(patch.ApplyTo(old(images.rows)[imageId]).View())
  {
    var count := images.Update(patch, imageId);
    if count == 0 {
      r := Err(ImageUploadFailed);
    } else {
      r := Ok(images.FetchById(imageId));
    }
  }

  /**
   * removeImage: IMAGE_NOT_FOUND unless a live row has the id; otherwise soft-deletes it and returns
   * the image as it was read. The row was just read, so the update matches it and DELETE_FAILED is unreachable.
   */
  method RemoveImage(images: ImageStore, imageId: nat) returns (r: Result<ImageView>)
    requires images.Valid()
    modifies images
    ensures images.Valid() && images.nextId == old(images.nextId)
    ensures r.Ok? <==> imageId in old(images.rows) && !old(images.rows)[imageId].isDeleted
    ensures r.Err? ==> r.error == ImageNotFound && images.rows == old(images.rows)
    ensures r.Ok? ==> r.value == old(images.rows)[imageId].View()
                      && images.rows == old(images.rows)[imageId := old(images.rows)[imageId].(isDeleted := true)]
  {
    var image := images.FetchById(imageId);
    if image.None? {
      return Err(ImageNotFound);
    }
    var count := images.Remove(imageId);
    if count == 0 {
      assert false;
    }
    r := Ok(image.value);
  }
}

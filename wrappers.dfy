/** Optional values and the outcome of a service call: a value, or the error it throws. */
module Wrappers {
  datatype Option<T> = None | Some(value: T)

  /** One constructor per exception constant the services throw. */
  datatype Error =
    | FolderEmpty          // FOLDER_EMPTY
    | FolderNotFound       // FOLDER_NOT_FOUND
    | FolderAddFailed      // ADD_FAILED (folders)
    | FolderUpdateFailed   // UPDATE_FOLDER
    | BookmarkNotFound     // BOOKMARK_NOT_FOUND
    | BookmarkEmpty        // BOOKMARK_EMPTY
    | BookmarkAddFailed    // ADD_FAILED (bookmarks)
    | BookmarkUpdateFailed // UPDATE_FAILED (bookmarks)
    | BookmarkDeleteFailed // DELETE_FAILED (bookmarks)
    | EmptyRecentBookmark  // EMPTY_RECENT_BOOKMARK
    | ImageNotFound        // IMAGE_NOT_FOUND
    | ImageUploadFailed    // UPLOAD_FAILED
    | ImageDeleteFailed    // DELETE_FAILED (images)
    | InvalidType          // INVALID_TYPE
    | InvalidImageType     // INVALID_IMAGE_TYPE
    | ChipNotFound         // CHIP_NOTFOUND
    | ChipNotAvailable     // CHIP_NOT_AVAILABLE
    | ChipAddFailed        // ADD_FAILED (chips)
    | ChipUpdateFailed     // UPDATE_FAILED (chips)
    | ChipRemoveFailed     // REMOVE_FAILED (chips)
    | ChipDeleteFailed     // the literal 'Failed to delete chip'

  datatype Result<T> = Ok(value: T) | Err(error: Error)
}

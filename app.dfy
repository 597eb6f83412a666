/**
 * The page's own handlers: opening the editor to add or to edit, handing a
 * save to the hook's create or update, the delete confirmation, and the
 * viewer's object URLs, minted when it opens and revoked when it closes.
 * The hook's operations report failure by throwing; the page catches and
 * drops the error, so the page's own state does not depend on it.
 */
module App {
  import opened Wrappers
  import opened Blobs
  import opened ObjectUrls
  import opened LocalDb
  import MemoryOps
  import MemoryHook
  import Timeline

  class Page {
    const hook: MemoryHook.Hook
    var isEditorOpen: bool
    var isImageViewerOpen: bool
    var isDeleteConfirmOpen: bool
    var editingMemory: Option<Memory>
    var initialFiles: seq<Blob>
    var existingPhotos: seq<Photo>
    var currentPhotoIndex: int
    var viewerPhotos: seq<Timeline.ImageWithUrl>
    var memoryIdToDelete: string

    constructor(h: MemoryHook.Hook)
      ensures hook == h
      ensures !isEditorOpen && !isImageViewerOpen && !isDeleteConfirmOpen
      ensures editingMemory == None && initialFiles == [] && existingPhotos == []
      ensures currentPhotoIndex == 0 && viewerPhotos == [] && memoryIdToDelete == ""
    {
      hook := h;
      isEditorOpen := false;
      isImageViewerOpen := false;
      isDeleteConfirmOpen := false;
      editingMemory := None;
      initialFiles := [];
      existingPhotos := [];
      currentPhotoIndex := 0;
      viewerPhotos := [];
      memoryIdToDelete := "";
    }

    /** `handleAddClick`: a blank editor, with nothing being edited, no files and no existing photos. */
    method HandleAddClick()
      modifies this`initialFiles, this`editingMemory, this`existingPhotos, this`isEditorOpen
      ensures initialFiles == [] && editingMemory == None && existingPhotos == [] && isEditorOpen
    {
      initialFiles := [];
      editingMemory := None;
      existingPhotos := [];
      isEditorOpen := true;
    }

    /** `handleEditClick(memory)`: the memory being edited, no new files, and its stored photos. */
    method HandleEditClick(memory: Memory)
      modifies this`editingMemory, this`initialFiles, this`existingPhotos, this`isEditorOpen
      ensures editingMemory == Some(memory) && initialFiles == [] && isEditorOpen
      ensures existingPhotos == PhotosOf(hook.db.photos, memory.id)
    {
      editingMemory := Some(memory);
      initialFiles := [];
      var photos := hook.GetPhotosByMemoryId(memory.id);
      existingPhotos := photos;
      isEditorOpen := true;
    }

    /**
     * `handleSaveMemory`: an update of the memory being edited when there
     * is one, a create otherwise; the page's own state is left alone
     * whether the hook succeeds or fails, and the hook's list and error
     * settle as the operation and its reload turn out.
     */
    method HandleSaveMemory(date: string, note: string, files: seq<Blob>, removedPhotoIds: seq<Id>,
                            compress: MemoryOps.Compressor, uuid: MemoryOps.Uuids, now: int, readOk: bool)
      requires hook.Valid()
      modifies hook, hook.db
      ensures hook.Valid()
      ensures editingMemory.Some? ==>
        hook.db.State() == MemoryOps.UpdateEffect(old(hook.db.State()), editingMemory.value.id, date, note, files,
                                                  removedPhotoIds, compress, uuid, now).tables
      ensures editingMemory.Some? ==>
        hook.Settled(MemoryOps.UpdateEffect(old(hook.db.State()), editingMemory.value.id, date, note, files,
                                            removedPhotoIds, compress, uuid, now).ok,
                     readOk, old(hook.memories), MemoryHook.UpdateFailed)
      ensures editingMemory.None? ==>
        hook.db.State() == MemoryOps.CreateEffect(old(hook.db.State()), date, note, files, compress, uuid, now).tables
      ensures editingMemory.None? ==>
        hook.Settled(MemoryOps.CreateEffect(old(hook.db.State()), date, note, files, compress, uuid, now).ok,
                     readOk, old(hook.memories), MemoryHook.CreateFailed)
    {
      if editingMemory.Some? {
        var _ := hook.UpdateMemory(editingMemory.value.id, date, note, files, removedPhotoIds, compress, uuid, now, readOk);
      } else {
        var _ := hook.CreateMemory(date, note, files, compress, uuid, now, readOk);
      }
    }

    /** `handleDeleteClick(id)`: remember the memory and ask for confirmation. */
    method HandleDeleteClick(id: Id)
      modifies this`memoryIdToDelete, this`isDeleteConfirmOpen
      ensures memoryIdToDelete == id && isDeleteConfirmOpen
    {
      memoryIdToDelete := id;
      isDeleteConfirmOpen := true;
    }

    /**
     * `handleConfirmDelete`: the hook deletes the remembered memory; the
     * dialog closes and the remembered id is cleared whether or not the
     * delete succeeds.
     */
    method HandleConfirmDelete(readOk: bool)
      requires hook.Valid()
      modifies this`isDeleteConfirmOpen, this`memoryIdToDelete, hook, hook.db
      ensures hook.Valid()
      ensures hook.db.State() == MemoryOps.DeleteEffect(old(hook.db.State()), old(memoryIdToDelete)).tables
      ensures hook.Settled(MemoryOps.DeleteEffect(old(hook.db.State()), old(memoryIdToDelete)).ok,
                           readOk, old(hook.memories), MemoryHook.DeleteFailed)
      ensures !isDeleteConfirmOpen && memoryIdToDelete == ""
    {
      var _ := hook.DeleteMemory(memoryIdToDelete, readOk);
      isDeleteConfirmOpen := false;
      memoryIdToDelete := "";
    }

    /**
     * `handleImageClick(memoryId, photoIndex)`: one new object URL per
     * stored photo of the memory, in order; the viewer opens at the clicked
     * position.
     */
    method HandleImageClick(memoryId: Id, photoIndex: int, urls: Registry)
      requires urls.Valid()
      modifies this`viewerPhotos, this`currentPhotoIndex, this`isImageViewerOpen, urls
      ensures urls.Valid()
      ensures Timeline.PhotosOf(viewerPhotos) == PhotosOf(hook.db.photos, memoryId)
      ensures viewerPhotos == Timeline.WithUrls(PhotosOf(hook.db.photos, memoryId), old(urls.minted))
      ensures urls.minted == old(urls.minted) + |viewerPhotos|
      ensures urls.live == old(urls.live) + Range(old(urls.minted), urls.minted)
      ensures currentPhotoIndex == photoIndex && isImageViewerOpen
    {
      var photos := hook.GetPhotosByMemoryId(memoryId);
      var shown := Timeline.MintUrls(photos, urls);
      viewerPhotos := shown;
      currentPhotoIndex := photoIndex;
      isImageViewerOpen := true;
    }

    /** `handleCloseImageViewer`: every viewer URL is revoked, the list emptied and the viewer closed. */
    method HandleCloseImageViewer(urls: Registry)
      requires urls.Valid()
      modifies this`isImageViewerOpen, this`viewerPhotos, urls
      ensures urls.Valid() && urls.minted == old(urls.minted)
      ensures urls.live == old(urls.live) - Timeline.TokensOf(Timeline.UrlsOf(old(viewerPhotos)))
      ensures !isImageViewerOpen && viewerPhotos == []
    {
      Timeline.RevokeList(Timeline.UrlsOf(viewerPhotos), urls);
      isImageViewerOpen := false;
      viewerPhotos := [];
    }

    /** Opening the viewer and closing it again leaves exactly the object URLs that were live before. */
    method ViewAndClose(memoryId: Id, photoIndex: int, urls: Registry)
      requires urls.Valid()
      modifies this`viewerPhotos, this`currentPhotoIndex, this`isImageViewerOpen, urls
      ensures urls.Valid() && urls.live == old(urls.live)
      ensures !isImageViewerOpen && viewerPhotos == []
    {
      HandleImageClick(memoryId, photoIndex, urls);
      ghost var made := Range(old(urls.minted), urls.minted);
      assert Timeline.TokensOf(Timeline.UrlsOf(viewerPhotos)) == made;
      HandleCloseImageViewer(urls);
      assert forall t :: t in made ==> t !in old(urls.live);
    }
  }
}

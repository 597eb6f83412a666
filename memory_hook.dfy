/**
 * The `useMemories` hook: the cached memory list, the loading flag and the
 * error slot, over the store it reads and writes. Each operation changes
 * the store exactly as the matching function of MemoryOps says, then
 * either reloads the list and clears the error, or records its own error
 * message and keeps the list it had. The reload catches its own read
 * failure, and the caller clears the error right after it, so a failed
 * reload leaves the old list with no error; `readOk` says whether the
 * reload's read succeeds.
 */
module MemoryHook {
  import opened Wrappers
  import opened Blobs
  import opened DataUrl
  import opened Listing
  import opened LocalDb
  import opened MemoryOps

  const LoadFailed: string := "加载记忆失败"
  const CreateFailed: string := "创建记忆失败"
  const UpdateFailed: string := "更新记忆失败"
  const DeleteFailed: string := "删除记忆失败"
  const ImportFailed: string := "导入数据失败"

  class Hook {
    /** The store the hook works on. */
    const db: MomentDB
    /** `memories`: the list last loaded. */
    var memories: seq<Memory>
    var loading: bool
    var error: Option<string>

    /** Every row of the store sits under its own key. */
    ghost predicate Valid()
      reads db
    {
      Keyed(db.State())
    }

    /**
     * How an operation leaves the hook's slots: on success the error is
     * cleared and the list reloaded, or kept when the reload's read fails;
     * on failure the operation's own error is recorded and the list kept.
     */
    ghost predicate Settled(ok: bool, readOk: bool, before: seq<Memory>, failure: string)
      reads this, db
    {
      && !loading
      && (ok && readOk ==> memories == NewestFirst(db.memories) && error == None)
      && (ok && !readOk ==> memories == before && error == None)
      && (!ok ==> memories == before && error == Some(failure))
    }

    constructor(store: MomentDB)
      ensures db == store && memories == [] && !loading && error == None
    {
      db := store;
      memories := [];
      loading := false;
      error := None;
    }

    /**
     * `loadMemories`: the list ordered by date, latest first. `readOk`
     * says whether the store read succeeds; a failed read keeps the list.
     */
    method LoadMemories(readOk: bool)
      modifies this`memories, this`loading, this`error
      ensures !loading
      ensures readOk ==> memories == NewestFirst(db.memories) && error == None
      ensures !readOk ==> memories == old(memories) && error == Some(LoadFailed)
    {
      loading := true;
      if readOk {
        memories := NewestFirst(db.memories);
        error := None;
      } else {
        error := Some(LoadFailed);
      }
      loading := false;
    }

    /**
     * The end of a mutating call: reload and then clear the error, which
     * also hides a failed reload, or record the failure.
     */
    method Finish(ok: bool, readOk: bool, failure: string)
      modifies this`memories, this`loading, this`error
      ensures Settled(ok, readOk, old(memories), failure)
    {
      if ok {
        LoadMemories(readOk);
        error := None;
      } else {
        error := Some(failure);
      }
      loading := false;
    }

    /**
     * The photo loop shared by create and update: compress each file, draw
     * the next id and add the row, stopping at the first failure.
     */
    method AddFiles(memoryId: Id, files: seq<Blob>, compress: Compressor, uuid: Uuids, base: nat, now: int)
      returns (added: seq<Id>, ok: bool)
      modifies db
      ensures var p := AddPhotos(old(db.photos), memoryId, files, compress, uuid, base, now);
        db.photos == p.photos && added == p.added && ok == p.ok
      ensures db.memories == old(db.memories)
    {
      ghost var photos0 := db.photos;
      added := [];
      var i := 0;
      while i < |files|
        invariant 0 <= i <= |files|
        invariant db.memories == old(db.memories)
        invariant var p := AddPhotos(photos0, memoryId, files[..i], compress, uuid, base, now);
          p.ok && db.photos == p.photos && added == p.added
      {
        AddPhotosNext(photos0, memoryId, files, i, compress, uuid, base, now);
        var compressed := compress(files[i]);
        if compressed.None? {
          AddPhotosHalts(photos0, memoryId, files, i + 1, compress, uuid, base, now);
          return added, false;
        }
        var photoId := uuid(base + i);
        var stored := db.AddPhoto(PhotoRow(photoId, memoryId, compressed.value, now));
        if !stored {
          AddPhotosHalts(photos0, memoryId, files, i + 1, compress, uuid, base, now);
          return added, false;
        }
        added := added + [photoId];
        i := i + 1;
      }
      assert files[..i] == files;
      ok := true;
    }

    /** `createMemory(date, note, files)`, with the compressor, the id oracle and the clock as inputs. */
    method CreateMemory(date: string, note: string, files: seq<Blob>, compress: Compressor, uuid: Uuids, now: int,
                        readOk: bool)
      returns (ok: bool)
      requires Valid()
      modifies this, db
      ensures var e := CreateEffect(old(db.State()), date, note, files, compress, uuid, now);
        db.State() == e.tables && ok == e.ok
      ensures Valid()
      ensures Settled(ok, readOk, old(memories), CreateFailed)
    {
      loading := true;
      CreateKeepsKeyed(db.State(), date, note, files, compress, uuid, now);
      ok := CreateInStore(date, note, files, compress, uuid, now);
      Finish(ok, readOk, CreateFailed);
    }

    /**
     * The store's part of `createMemory`: add to the memory already on the
     * date, merging the note, or add a new memory with the photos.
     */
    method CreateInStore(date: string, note: string, files: seq<Blob>, compress: Compressor, uuid: Uuids, now: int)
      returns (ok: bool)
      requires Valid()
      modifies db
      ensures var e := CreateEffect(old(db.State()), date, note, files, compress, uuid, now);
        db.State() == e.tables && ok == e.ok
    {
      ghost var t0 := db.State();
      var existing := FirstOnDate(db.memories, date);
      var memoryId: Id;
      var existingPhotoIds: seq<Id> := [];
      if existing.Some? {
        memoryId := existing.value.id;
        existingPhotoIds := existing.value.photoIds;
      } else {
        memoryId := uuid(0);
      }
      var base: nat := if existing.Some? then 0 else 1;
      var photoIds, stored := AddFiles(memoryId, files, compress, uuid, base, now);
      CreateEffectCases(t0, date, note, files, compress, uuid, now);
      assert memoryId == TargetId(t0, date, uuid) && base == PhotoBase(t0, date);
      if !stored {
        return false;
      }
      var allPhotoIds := existingPhotoIds + photoIds;
      if existing.Some? {
        var merged := MergedNote(note, existing.value.note);
        var _ := db.UpdateMemory(memoryId, MemoryChanges(None, Some(merged), Some(allPhotoIds), Some(now)));
        ok := true;
      } else {
        assert allPhotoIds == photoIds;
        ok := db.AddMemory(Memory(memoryId, date, note, allPhotoIds, now, now));
      }
    }

    /** `updateMemory(id, date, note, newFiles, removedPhotoIds)`. */
    method UpdateMemory(id: Id, date: string, note: string, newFiles: seq<Blob>, removedPhotoIds: seq<Id>,
                        compress: Compressor, uuid: Uuids, now: int, readOk: bool)
      returns (ok: bool)
      requires Valid()
      modifies this, db
      ensures var e := UpdateEffect(old(db.State()), id, date, note, newFiles, removedPhotoIds, compress, uuid, now);
        db.State() == e.tables && ok == e.ok
      ensures Valid()
      ensures Settled(ok, readOk, old(memories), UpdateFailed)
    {
      loading := true;
      UpdateKeepsKeyed(db.State(), id, date, note, newFiles, removedPhotoIds, compress, uuid, now);
      ok := UpdateInStore(id, date, note, newFiles, removedPhotoIds, compress, uuid, now);
      Finish(ok, readOk, UpdateFailed);
    }

    /**
     * The store's part of `updateMemory`: a missing memory fails; otherwise
     * the new photos are added, the removed ones deleted and the row
     * rewritten with the kept ids followed by the new ones.
     */
    method UpdateInStore(id: Id, date: string, note: string, newFiles: seq<Blob>, removedPhotoIds: seq<Id>,
                         compress: Compressor, uuid: Uuids, now: int)
      returns (ok: bool)
      modifies db
      ensures var e := UpdateEffect(old(db.State()), id, date, note, newFiles, removedPhotoIds, compress, uuid, now);
        db.State() == e.tables && ok == e.ok
    {
      if id !in db.memories {
        return false;
      }
      var memory := db.memories[id];
      var updatedPhotoIds := Without(memory.photoIds, removedPhotoIds);
      var added, stored := AddFiles(id, newFiles, compress, uuid, 0, now);
      if !stored {
        return false;
      }
      updatedPhotoIds := updatedPhotoIds + added;
      if |removedPhotoIds| > 0 {
        db.DeletePhotosAnyOf(removedPhotoIds);
      }
      var _ := db.UpdateMemory(id, MemoryChanges(Some(date), Some(note), Some(updatedPhotoIds), Some(now)));
      ok := true;
    }

    /** `deleteMemory(id)`: the memory's photos first, then the memory. */
    method DeleteMemory(id: Id, readOk: bool) returns (ok: bool)
      requires Valid()
      modifies this, db
      ensures var e := DeleteEffect(old(db.State()), id);
        db.State() == e.tables && ok == e.ok
      ensures Valid()
      ensures Settled(ok, readOk, old(memories), DeleteFailed)
    {
      loading := true;
      if id !in db.memories {
        Finish(false, readOk, DeleteFailed);
        return false;
      }
      db.DeletePhotosOf(id);
      db.DeleteMemory(id);
      Finish(true, readOk, DeleteFailed);
      ok := true;
    }

    /** `getPhotosByMemoryId(memoryId)`: the memory's photos, read without changing anything. */
    method GetPhotosByMemoryId(memoryId: Id) returns (photos: seq<Photo>)
      ensures forall p :: p in photos <==> p in db.photos.Values && p.memoryId == memoryId
      ensures photos == PhotosOf(db.photos, memoryId)
    {
      photos := PhotosOf(db.photos, memoryId);
    }

    /** `getPhoto(photoId)`: the stored row, or `undefined`. */
    method GetPhoto(photoId: Id) returns (photo: Option<Photo>)
      ensures photo.Some? <==> photoId in db.photos
      ensures photo.Some? ==> photo.value == db.photos[photoId]
    {
      photo := if photoId in db.photos then Some(db.photos[photoId]) else None;
    }

    /** `exportData`: the document written to the download, a snapshot that changes no table. */
    method ExportData(now: int) returns (doc: ExportDoc)
      modifies this`loading, this`error
      ensures doc == Export(db.State(), now)
      ensures !loading && error == None
    {
      loading := true;
      doc := Export(db.State(), now);
      error := None;
      loading := false;
    }

    /**
     * `importData(file)`: `doc` is the parsed file, `None` where
     * `JSON.parse` throws. Inside the transaction both tables are cleared,
     * the photos decoded and added, then the memories; a failure restores
     * the snapshot the transaction started from.
     */
    method ImportData(doc: Option<ExportDoc>, readOk: bool) returns (ok: bool)
      requires Valid()
      modifies this, db
      ensures var e := ImportEffect(old(db.State()), doc);
        db.State() == e.tables && ok == e.ok
      ensures Valid()
      ensures Settled(ok, readOk, old(memories), ImportFailed)
    {
      loading := true;
      ImportKeepsKeyed(db.State(), doc);
      if doc.None? {
        Finish(false, readOk, ImportFailed);
        return false;
      }
      var snapshot := db.State();
      db.Clear();
      var savedPhotos := DecodePhotos(OrEmpty(doc.value.photos));
      var added := savedPhotos.Some?;
      if added {
        added := BulkAddPhotos(savedPhotos.value);
      }
      if added {
        added := BulkAddMemories(OrEmpty(doc.value.memories));
      }
      if !added {
        db.Restore(snapshot);
      }
      Finish(added, readOk, ImportFailed);
      ok := added;
    }

    /** The photos of the document with each blob decoded by `base64ToBlob`, or `None` when one throws. */
    method DecodePhotos(rows: seq<ExportedPhoto>) returns (saved: Option<seq<Photo>>)
      ensures saved == ImportPhotos(rows)
    {
      var photos: seq<Photo> := [];
      var i := 0;
      while i < |rows|
        invariant 0 <= i <= |rows|
        invariant ImportPhotos(rows[..i]) == Some(photos)
      {
        assert rows[..i + 1][..i] == rows[..i];
        var blob := Base64ToBlob(rows[i].blob);
        if blob.None? {
          assert ImportPhoto(rows[i]).None?;
          return None;
        }
        photos := photos + [Photo(rows[i].id, rows[i].memoryId, blob.value, rows[i].mimeType, rows[i].createdAt)];
        i := i + 1;
      }
      assert rows[..i] == rows;
      saved := Some(photos);
    }

    /** `db.photos.bulkAdd(rows)` into the cleared table. */
    method BulkAddPhotos(rows: seq<Photo>) returns (ok: bool)
      requires db.photos == map[]
      modifies db
      ensures ok <==> BulkAdd(rows, PhotoKey).Some?
      ensures ok ==> db.photos == BulkAdd(rows, PhotoKey).value
      ensures db.memories == old(db.memories)
    {
      var j := 0;
      while j < |rows|
        invariant 0 <= j <= |rows|
        invariant BulkAdd(rows[..j], PhotoKey) == Some(db.photos)
        invariant db.memories == old(db.memories)
      {
        assert rows[..j + 1][..j] == rows[..j];
        var stored := db.AddPhoto(rows[j]);
        if !stored {
          BulkAddHalts(rows, j + 1, PhotoKey);
          return false;
        }
        j := j + 1;
      }
      assert rows[..j] == rows;
      ok := true;
    }

    /** `db.memories.bulkAdd(rows)` into the cleared table. */
    method BulkAddMemories(rows: seq<Memory>) returns (ok: bool)
      requires db.memories == map[]
      modifies db
      ensures ok <==> BulkAdd(rows, MemoryKey).Some?
      ensures ok ==> db.memories == BulkAdd(rows, MemoryKey).value
      ensures db.photos == old(db.photos)
    {
      var j := 0;
      while j < |rows|
        invariant 0 <= j <= |rows|
        invariant BulkAdd(rows[..j], MemoryKey) == Some(db.memories)
        invariant db.photos == old(db.photos)
      {
        assert rows[..j + 1][..j] == rows[..j];
        var stored := db.AddMemory(rows[j]);
        if !stored {
          BulkAddHalts(rows, j + 1, MemoryKey);
          return false;
        }
        j := j + 1;
      }
      assert rows[..j] == rows;
      ok := true;
    }
  }
}

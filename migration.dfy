/**
 * Moving the local store to the cloud service, and the helpers around it:
 * clearing the local tables, deciding whether there is anything to move,
 * the local statistics and the legacy backup document. The cloud calls are
 * oracles: `create(i, date, note)` is the answer to creating the i-th
 * memory, `upload(i, j)` says whether the j-th photo of the i-th memory
 * uploads.
 */
module Migration {
  import opened Wrappers
  import opened Blobs
  import opened Listing
  import opened DataUrl
  import opened LocalDb
  import Dates
  import RemoteStore

  const UserInitFailed: string := "用户初始化失败"

  datatype MigrationStats = MigrationStats(memoriesMigrated: nat, photosMigrated: nat, totalSize: nat)

  /** `{ success, error?, stats? }`. */
  datatype MigrationResult = MigrationResult(success: bool, error: Option<string>, stats: Option<MigrationStats>)

  /** Uploads that went through, and their total size in bytes. */
  datatype Tally = Tally(count: nat, size: nat)

  type Creator = (nat, string, string) -> Result<Id>
  type Uploader = (nat, nat) -> bool

  function Plus(a: Tally, b: Tally): (r: Tally)
    ensures r.count == a.count + b.count && r.size == a.size + b.size
  {
    Tally(a.count + b.count, a.size + b.size)
  }

  /** The total size of some photos' blobs. */
  function TotalSize(photos: seq<Photo>): (n: nat)
    ensures photos == [] ==> n == 0
  {
    if |photos| == 0 then 0 else TotalSize(photos[..|photos| - 1]) + Size(photos[|photos| - 1].blob)
  }

  /**
   * The `File` the loop hands to `uploadPhoto` for the j-th photo of a
   * memory: the photo's bytes, named `photo_<j>.jpg`, typed with the
   * photo's MIME type or JPEG when it has none (normalised as the File
   * constructor does).
   */
  function UploadFile(photo: Photo, j: nat): (f: RemoteStore.File)
    ensures f.name == "photo_" + Dates.Decimal(j) + ".jpg"
    ensures f.blob.bytes == photo.blob.bytes && Size(f.blob) == Size(photo.blob)
    ensures photo.mimeType != "" ==> f.blob.mime == BlobType(photo.mimeType)
    ensures photo.mimeType == "" ==> f.blob.mime == "image/jpeg"
  {
    var mime := if photo.mimeType != "" then photo.mimeType else "image/jpeg";
    FallbackIsBlobType();
    RemoteStore.File("photo_" + Dates.Decimal(j) + ".jpg", Blob(photo.blob.bytes, BlobType(mime)))
  }

  /**
   * Whatever the photo's type, the object `uploadPhoto` stores for a
   * migrated photo is named with the `jpg` extension.
   */
  lemma MigratedObjectsAreJpg(photo: Photo, j: nat, userId: Id, memoryId: Id, photoId: Id)
    ensures RemoteStore.Extension(UploadFile(photo, j).name) == "jpg"
    ensures RemoteStore.StoragePath(userId, memoryId, photoId, UploadFile(photo, j).name)
      == userId + "/" + memoryId + "/" + photoId + ".jpg"
  {
    var stem := "photo_" + Dates.Decimal(j);
    var name := UploadFile(photo, j).name;
    assert name == stem + "." + "jpg";
    RemoteStore.ExtensionAfterLastDot(stem, "jpg");
    var prefix := userId + "/" + memoryId + "/" + photoId;
    assert prefix + "." + "jpg" == prefix + ".jpg";
  }

  /** The uploads of the i-th memory's photos that succeed: a failure is skipped and the loop goes on. */
  function Uploads(photos: seq<Photo>, i: nat, upload: Uploader): (t: Tally)
    decreases |photos|
  {
    if |photos| == 0 then Tally(0, 0)
    else
      var prev := Uploads(photos[..|photos| - 1], i, upload);
      var j := |photos| - 1;
      if upload(i, j) then Tally(prev.count + 1, prev.size + Size(photos[j].blob)) else prev
  }

  /** At most every photo uploads, and at most their total size. */
  lemma {:induction false} UploadsBounded(photos: seq<Photo>, i: nat, upload: Uploader)
    ensures Uploads(photos, i, upload).count <= |photos|
    ensures Uploads(photos, i, upload).size <= TotalSize(photos)
    decreases |photos|
  {
    if |photos| > 0 {
      UploadsBounded(photos[..|photos| - 1], i, upload);
    }
  }

  /** When every upload succeeds, every photo and its whole size are counted. */
  lemma {:induction false} UploadsAllSucceed(photos: seq<Photo>, i: nat, upload: Uploader)
    requires forall j :: 0 <= j < |photos| ==> upload(i, j)
    ensures Uploads(photos, i, upload) == Tally(|photos|, TotalSize(photos))
    decreases |photos|
  {
    if |photos| > 0 {
      UploadsAllSucceed(photos[..|photos| - 1], i, upload);
    }
  }

  /** When every upload fails, nothing is counted, yet the loop has gone through them all. */
  lemma {:induction false} UploadsAllFail(photos: seq<Photo>, i: nat, upload: Uploader)
    requires forall j :: 0 <= j < |photos| ==> !upload(i, j)
    ensures Uploads(photos, i, upload) == Tally(0, 0)
    decreases |photos|
  {
    if |photos| > 0 {
      UploadsAllFail(photos[..|photos| - 1], i, upload);
    }
  }

  /**
   * The memory loop over the listed memories: each is created in the cloud,
   * then its photos uploaded; a failed create throws out of the whole loop.
   */
  function MigrateAll(memories: seq<Memory>, photos: map<Id, Photo>, create: Creator, upload: Uploader): (r: Result<Tally>)
    decreases |memories|
  {
    if |memories| == 0 then Success(Tally(0, 0))
    else
      var prev := MigrateAll(memories[..|memories| - 1], photos, create, upload);
      var i := |memories| - 1;
      var m := memories[i];
      if prev.Failure? then prev
      else if create(i, m.date, m.note).Failure? then Failure(create(i, m.date, m.note).error)
      else Success(Plus(prev.value, Uploads(PhotosOf(photos, m.id), i, upload)))
  }

  /** `migrateToSupabase()`, with the user `initializeUser` yields as an input. */
  function Migration(t: Tables, user: Option<Id>, create: Creator, upload: Uploader): (r: MigrationResult)
  {
    if user.None? then MigrationResult(false, Some(UserInitFailed), None)
    else
      var memories := NewestFirst(t.memories);
      if |memories| == 0 then MigrationResult(true, None, Some(MigrationStats(0, 0, 0)))
      else match MigrateAll(memories, t.photos, create, upload)
        case Failure(e) => MigrationResult(false, Some(e), None)
        case Success(tally) => MigrationResult(true, None, Some(MigrationStats(|memories|, tally.count, tally.size)))
  }

  /** Without a user nothing is migrated and the error says so. */
  lemma MigrationNeedsUser(t: Tables, create: Creator, upload: Uploader)
    ensures Migration(t, None, create, upload) == MigrationResult(false, Some(UserInitFailed), None)
  {
  }

  /** An empty store migrates successfully with every statistic 0. */
  lemma MigrationOfNothing(t: Tables, user: Id, create: Creator, upload: Uploader)
    requires t.memories == map[]
    ensures Migration(t, Some(user), create, upload) == MigrationResult(true, None, Some(MigrationStats(0, 0, 0)))
  {
    assert |NewestFirst(t.memories)| == 0;
  }

  /** The photos of the first `n` listed memories. */
  function PhotoCount(memories: seq<Memory>, photos: map<Id, Photo>): (n: nat)
    decreases |memories|
  {
    if |memories| == 0 then 0
    else PhotoCount(memories[..|memories| - 1], photos) + |PhotosOf(photos, memories[|memories| - 1].id)|
  }

  /** The loop counts no more photos than there are. */
  lemma {:induction false} MigrateAllBounded(memories: seq<Memory>, photos: map<Id, Photo>, create: Creator, upload: Uploader)
    requires MigrateAll(memories, photos, create, upload).Success?
    ensures MigrateAll(memories, photos, create, upload).value.count <= PhotoCount(memories, photos)
    decreases |memories|
  {
    if |memories| > 0 {
      var m := memories[|memories| - 1];
      MigrateAllBounded(memories[..|memories| - 1], photos, create, upload);
      UploadsBounded(PhotosOf(photos, m.id), |memories| - 1, upload);
    }
  }

  /** A failed create stops the loop: the whole migration fails with that error. */
  lemma {:induction false} MigrateAllStopsAtCreate(memories: seq<Memory>, photos: map<Id, Photo>,
                                                   create: Creator, upload: Uploader, i: nat)
    requires i < |memories| && create(i, memories[i].date, memories[i].note).Failure?
    ensures MigrateAll(memories, photos, create, upload).Failure?
    decreases |memories|
  {
    if i < |memories| - 1 {
      MigrateAllStopsAtCreate(memories[..|memories| - 1], photos, create, upload, i);
    }
  }

  /**
   * A successful migration reports every local memory as migrated, and no
   * more photos than the listed memories own.
   */
  lemma MigrationCounts(t: Tables, user: Id, create: Creator, upload: Uploader)
    ensures var r := Migration(t, Some(user), create, upload);
      r.success ==>
        && r.stats.Some? && r.error.None?
        && r.stats.value.memoriesMigrated == |t.memories|
        && r.stats.value.photosMigrated <= PhotoCount(NewestFirst(t.memories), t.photos)
  {
    var memories := NewestFirst(t.memories);
    if |memories| > 0 && MigrateAll(memories, t.photos, create, upload).Success? {
      MigrateAllBounded(memories, t.photos, create, upload);
    }
  }

  /** When every create and every upload succeeds, every photo of every listed memory is counted. */
  lemma {:induction false} MigrateAllEverything(memories: seq<Memory>, photos: map<Id, Photo>, create: Creator, upload: Uploader)
    requires forall i :: 0 <= i < |memories| ==> create(i, memories[i].date, memories[i].note).Success?
    requires forall i, j :: 0 <= i < |memories| && 0 <= j ==> upload(i, j)
    ensures MigrateAll(memories, photos, create, upload).Success?
    ensures MigrateAll(memories, photos, create, upload).value.count == PhotoCount(memories, photos)
    decreases |memories|
  {
    if |memories| > 0 {
      var i := |memories| - 1;
      var prefix := memories[..i];
      assert forall k :: 0 <= k < |prefix| ==> prefix[k] == memories[k];
      MigrateAllEverything(prefix, photos, create, upload);
      UploadsAllSucceed(PhotosOf(photos, memories[i].id), i, upload);
    }
  }

  /** The nested loops of `migrateToSupabase`. */
  method Migrate(db: MomentDB, user: Option<Id>, create: Creator, upload: Uploader) returns (r: MigrationResult)
    ensures r == Migration(db.State(), user, create, upload)
  {
    if user.None? {
      return MigrationResult(false, Some(UserInitFailed), None);
    }
    var memories := NewestFirst(db.memories);
    if |memories| == 0 {
      return MigrationResult(true, None, Some(MigrationStats(0, 0, 0)));
    }
    var migrated := MigrateMemories(memories, db.photos, create, upload);
    match migrated
    case Failure(e) => r := MigrationResult(false, Some(e), None);
    case Success(tally) => r := MigrationResult(true, None, Some(MigrationStats(|memories|, tally.count, tally.size)));
  }

  /** The memory loop: create each memory, then upload its photos; the first failed create ends it. */
  method MigrateMemories(memories: seq<Memory>, photos: map<Id, Photo>, create: Creator, upload: Uploader)
    returns (r: Result<Tally>)
    ensures r == MigrateAll(memories, photos, create, upload)
  {
    var migrated := Tally(0, 0);
    for i := 0 to |memories|
      invariant MigrateAll(memories[..i], photos, create, upload) == Success(migrated)
    {
      var memory := memories[i];
      var created := create(i, memory.date, memory.note);
      MigrateAllStep(memories, photos, create, upload, i);
      if created.Failure? {
        MigrateAllHalts(memories, photos, create, upload, i + 1);
        return Failure(created.error);
      }
      var uploaded := UploadPhotos(PhotosOf(photos, memory.id), i, upload);
      migrated := Plus(migrated, uploaded);
    }
    assert memories[..|memories|] == memories;
    r := Success(migrated);
  }

  /** The photo loop of one memory: every photo tried, the successes counted and their sizes summed. */
  method UploadPhotos(photos: seq<Photo>, i: nat, upload: Uploader) returns (t: Tally)
    ensures t == Uploads(photos, i, upload)
  {
    var photosMigrated: nat, totalSize: nat := 0, 0;
    for j := 0 to |photos|
      invariant Tally(photosMigrated, totalSize) == Uploads(photos[..j], i, upload)
    {
      assert photos[..j + 1][..j] == photos[..j];
      if upload(i, j) {
        totalSize := totalSize + Size(photos[j].blob);
        photosMigrated := photosMigrated + 1;
      }
    }
    assert photos[..|photos|] == photos;
    t := Tally(photosMigrated, totalSize);
  }

  /** One more memory through the loop. */
  lemma MigrateAllStep(memories: seq<Memory>, photos: map<Id, Photo>, create: Creator, upload: Uploader, i: nat)
    requires i < |memories| && MigrateAll(memories[..i], photos, create, upload).Success?
    ensures var m := memories[i]; var next := MigrateAll(memories[..i + 1], photos, create, upload);
      && (create(i, m.date, m.note).Failure? ==> next == Failure(create(i, m.date, m.note).error))
      && (create(i, m.date, m.note).Success? ==>
            next == Success(Plus(MigrateAll(memories[..i], photos, create, upload).value, Uploads(PhotosOf(photos, m.id), i, upload))))
  {
    assert memories[..i + 1][..i] == memories[..i];
  }

  /** Once the loop has failed on a prefix, it fails on the whole list with the same error. */
  lemma {:induction false} MigrateAllHalts(memories: seq<Memory>, photos: map<Id, Photo>, create: Creator, upload: Uploader, n: nat)
    requires n <= |memories| && MigrateAll(memories[..n], photos, create, upload).Failure?
    ensures MigrateAll(memories, photos, create, upload) == MigrateAll(memories[..n], photos, create, upload)
    decreases |memories| - n
  {
    if n < |memories| {
      assert memories[..n + 1][..n] == memories[..n];
      assert MigrateAll(memories[..n + 1], photos, create, upload) == MigrateAll(memories[..n], photos, create, upload);
      MigrateAllHalts(memories, photos, create, upload, n + 1);
    } else {
      assert memories[..n] == memories;
    }
  }

  /** `clearLocalData()`: both tables emptied. */
  method ClearLocalData(db: MomentDB)
    modifies db
    ensures db.memories == map[] && db.photos == map[]
  {
    db.Clear();
  }

  /** `needsMigration()`: some local memory exists; a failed read says no. */
  predicate NeedsMigration(t: Tables, readOk: bool)
  {
    readOk && |t.memories| > 0
  }

  /** Migration is needed exactly when the migration would create at least one cloud memory. */
  lemma NeedsMigrationIffWork(t: Tables)
    ensures NeedsMigration(t, true) <==> |NewestFirst(t.memories)| > 0
  {
  }

  datatype LocalStats = LocalStats(memoriesCount: nat, photosCount: nat, totalSize: nat)

  /** `getLocalDataStats()`: table sizes and the sum of blob sizes, or all zeros when a read fails. */
  method GetLocalDataStats(db: MomentDB, readOk: bool) returns (stats: LocalStats)
    ensures !readOk ==> stats == LocalStats(0, 0, 0)
    ensures readOk ==> stats == LocalStats(|db.memories|, |db.photos|, TotalSize(Rows(db.photos)))
  {
    if !readOk {
      return LocalStats(0, 0, 0);
    }
    var photos := Rows(db.photos);
    var totalSize := SumSizes(photos);
    stats := LocalStats(|db.memories|, |photos|, totalSize);
  }

  /** The loop of `getLocalDataStats` adding up the blob sizes. */
  method SumSizes(photos: seq<Photo>) returns (totalSize: nat)
    ensures totalSize == TotalSize(photos)
  {
    totalSize := 0;
    for i := 0 to |photos|
      invariant totalSize == TotalSize(photos[..i])
    {
      assert photos[..i + 1][..i] == photos[..i];
      totalSize := totalSize + Size(photos[i].blob);
    }
    assert photos[..|photos|] == photos;
  }

  /** After clearing, nothing needs migrating and the statistics are all zero. */
  lemma ClearedStoreIsEmpty(t: Tables)
    requires t.memories == map[] && t.photos == map[]
    ensures !NeedsMigration(t, true)
    ensures Rows(t.photos) == [] && TotalSize(Rows(t.photos)) == 0
  {
  }

  /** A photo of the legacy backup: `{ ...photo, base64, blob: undefined }`, the undefined key dropped. */
  datatype LegacyPhoto = LegacyPhoto(id: Id, memoryId: Id, mimeType: string, createdAt: int, base64: string)

  /** The legacy backup document. */
  datatype LegacyExport = LegacyExport(version: string, exportDate: int, memories: seq<Memory>, photos: seq<LegacyPhoto>)

  function ToLegacy(p: Photo): (l: LegacyPhoto)
    ensures l.id == p.id && l.memoryId == p.memoryId && l.mimeType == p.mimeType && l.createdAt == p.createdAt
    ensures |l.base64| >= 13 && l.base64[..5] == "data:"
  {
    LegacyPhoto(p.id, p.memoryId, p.mimeType, p.createdAt, ToDataUrl(p.blob))
  }

  /** The `base64` field of a legacy photo decodes back to its blob whenever the type survives a data URL. */
  lemma LegacyPhotoDecodes(p: Photo)
    requires RoundTrips(p.blob.mime)
    ensures Decode(ToLegacy(p).base64) == Some(p.blob)
  {
    DecodeToDataUrl(p.blob);
  }

  /** `exportLocalData()`: both tables in key order, every photo carrying its data URL instead of its blob. */
  method ExportLocalData(db: MomentDB, now: int) returns (doc: LegacyExport)
    ensures doc.version == "1.0" && doc.exportDate == now && doc.memories == Rows(db.memories)
    ensures var rows := Rows(db.photos);
      |doc.photos| == |rows| && forall i :: 0 <= i < |rows| ==> doc.photos[i] == ToLegacy(rows[i])
  {
    var photos := ToLegacyAll(Rows(db.photos));
    doc := LegacyExport("1.0", now, Rows(db.memories), photos);
  }

  /** The `Promise.all` over the photo rows: each row converted, in order. */
  method ToLegacyAll(rows: seq<Photo>) returns (photos: seq<LegacyPhoto>)
    ensures |photos| == |rows| && forall i :: 0 <= i < |rows| ==> photos[i] == ToLegacy(rows[i])
  {
    photos := [];
    for i := 0 to |rows|
      invariant |photos| == i
      invariant forall k :: 0 <= k < i ==> photos[k] == ToLegacy(rows[k])
    {
      photos := photos + [ToLegacy(rows[i])];
    }
  }
}

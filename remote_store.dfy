/**
 * The cloud data service: a `memories` table, a `photos` table and a
 * `photos` storage bucket, with the row mapping and the read-modify-write
 * sequences of `dataService`. Every answer of the server (an error, a read
 * that comes back empty, a database-generated id) is an input of the
 * operation, so each operation is deterministic in its inputs.
 */
module RemoteStore {
  import opened Wrappers
  import opened Blobs
  import opened Strings
  import opened Sorting
  import opened Listing
  import LocalDb
  import DataUrl

  type Id = string

  /** A `memories` row (`MemoryDB`); timestamps as milliseconds. */
  datatype CloudMemory = CloudMemory(id: Id, userId: Id, date: string, note: Option<string>,
                                     photoCount: int, createdAt: int, updatedAt: int)

  /** A `photos` row (`PhotoDB`). */
  datatype CloudPhoto = CloudPhoto(id: Id, memoryId: Id, userId: Id, storagePath: string, publicUrl: string,
                                   thumbnailUrl: Option<string>, mimeType: Option<string>, fileSize: Option<int>,
                                   width: Option<int>, height: Option<int>, createdAt: int)

  /** The application's photo record as the service hands it out; the bytes stay in the bucket. */
  datatype Photo = Photo(id: Id, memoryId: Id, blob: Blob, mimeType: string, createdAt: int,
                         publicUrl: Option<string>, thumbnailUrl: Option<string>)

  /** A browser `File`: a name and its contents. */
  datatype File = File(name: string, blob: Blob)

  datatype Dimensions = Dimensions(width: int, height: int)

  const NotSignedIn: string := "用户未登录"
  const PhotoMissing: string := "照片不存在"
  const DuplicateKey: string := "duplicate key value violates unique constraint"
  const DefaultMime: string := "image/jpeg"

  // ---- row mapping ----

  /** JavaScript truthiness of a nullable string: `null` and `''` both count as absent. */
  function Truthy(s: Option<string>): (r: Option<string>)
    ensures r.Some? <==> s.Some? && s.value != ""
    ensures r.Some? ==> r == s
  {
    if s.Some? && s.value != "" then s else None
  }

  /** `value || fallback` on a nullable string. */
  function OrDefault(s: Option<string>, fallback: string): (r: string)
    ensures Truthy(s).Some? ==> r == s.value
    ensures Truthy(s).None? ==> r == fallback
  {
    if Truthy(s).Some? then s.value else fallback
  }

  /** The record `getMemories` makes of a row: no note becomes '', and the photo list starts empty. */
  function ToMemory(row: CloudMemory): (m: LocalDb.Memory)
    ensures m.id == row.id && m.date == row.date
    ensures m.createdAt == row.createdAt && m.updatedAt == row.updatedAt
    ensures m.photoIds == []
    ensures row.note.Some? ==> m.note == row.note.value
    ensures row.note.None? ==> m.note == ""
  {
    LocalDb.Memory(row.id, row.date, OrDefault(row.note, ""), [], row.createdAt, row.updatedAt)
  }

  /**
   * The record `getPhotos` makes of a row: an empty placeholder blob, the
   * MIME type defaulting to JPEG. The placeholder's type goes through the
   * Blob constructor, which lower-cases it (or empties it), while
   * `mimeType` keeps the stored text.
   */
  function ToPhoto(row: CloudPhoto): (p: Photo)
    ensures p.id == row.id && p.memoryId == row.memoryId && p.createdAt == row.createdAt
    ensures p.blob.bytes == [] && p.blob.mime == DataUrl.BlobType(p.mimeType)
    ensures p.mimeType == (if Truthy(row.mimeType).Some? then row.mimeType.value else DefaultMime)
    ensures p.publicUrl == Some(row.publicUrl)
    ensures p.thumbnailUrl == Truthy(row.thumbnailUrl)
  {
    var mime := OrDefault(row.mimeType, DefaultMime);
    Photo(row.id, row.memoryId, Blob([], DataUrl.BlobType(mime)), mime, row.createdAt, Some(row.publicUrl), Truthy(row.thumbnailUrl))
  }

  /** A type stored in capitals keeps them in `mimeType`, but the placeholder blob's type is lower-cased. */
  lemma PlaceholderTypeLowerCased(row: CloudPhoto)
    requires row.mimeType == Some("IMAGE/PNG")
    ensures ToPhoto(row).mimeType == "IMAGE/PNG" && ToPhoto(row).blob.mime == "image/png"
  {
  }

  // ---- reads ----

  /** `order('date', { ascending: false })`: a later date first. */
  predicate LaterDate(a: CloudMemory, b: CloudMemory)
  {
    LexLe(b.date, a.date)
  }

  lemma LaterDateIsTotalPreorder()
    ensures TotalPreorder(LaterDate)
  {
    forall a: CloudMemory, b: CloudMemory
      ensures LaterDate(a, b) || LaterDate(b, a)
    {
      LexLeTotal(a.date, b.date);
    }
    forall a: CloudMemory, b: CloudMemory, c: CloudMemory | LaterDate(a, b) && LaterDate(b, c)
      ensures LaterDate(a, c)
    {
      LexLeTransitive(c.date, b.date, a.date);
    }
  }

  /** `order('created_at', { ascending: true })`: an earlier row first. */
  predicate EarlierRow(a: CloudPhoto, b: CloudPhoto)
  {
    a.createdAt <= b.createdAt
  }

  function MapMemories(rows: seq<CloudMemory>): (r: seq<LocalDb.Memory>)
    ensures |r| == |rows|
    ensures forall i :: 0 <= i < |rows| ==> r[i] == ToMemory(rows[i])
  {
    seq(|rows|, i requires 0 <= i < |rows| => ToMemory(rows[i]))
  }

  function MapPhotos(rows: seq<CloudPhoto>): (r: seq<Photo>)
    ensures |r| == |rows|
    ensures forall i :: 0 <= i < |rows| ==> r[i] == ToPhoto(rows[i])
  {
    seq(|rows|, i requires 0 <= i < |rows| => ToPhoto(rows[i]))
  }

  /** `getMemories()`: every row, latest date first, as records; a failed query throws its error. */
  function GetMemories(t: map<Id, CloudMemory>, readError: Option<string>): (r: Result<seq<LocalDb.Memory>>)
    ensures readError.Some? ==> r == Failure(readError.value)
    ensures readError.None? ==> r.Success? && |r.value| == |t|
  {
    if readError.Some? then Failure(readError.value)
    else
      LaterDateIsTotalPreorder();
      Success(MapMemories(SortBy(Rows(t), LaterDate)))
  }

  /** The record is the mapping of a stored row. */
  ghost predicate StoredMemory(m: LocalDb.Memory, t: map<Id, CloudMemory>)
  {
    exists row :: row in t.Values && m == ToMemory(row)
  }

  /** The record is the mapping of a stored row. */
  ghost predicate StoredPhoto(p: Photo, t: map<Id, CloudPhoto>)
  {
    exists row :: row in t.Values && p == ToPhoto(row)
  }

  /** A date-descending row order gives date-descending records. */
  lemma MemoriesDescending(s: seq<CloudMemory>)
    requires SortedBy(s, LaterDate)
    ensures var r := MapMemories(s); forall i, j :: 0 <= i < j < |r| ==> LexLe(r[j].date, r[i].date)
  {
    var r := MapMemories(s);
    forall i, j | 0 <= i < j < |r|
      ensures LexLe(r[j].date, r[i].date)
    {
      assert LaterDate(s[i], s[j]);
    }
  }

  /** Mapping rows that are exactly the stored ones lists every stored row, and nothing else. */
  lemma MemoriesCover(s: seq<CloudMemory>, t: map<Id, CloudMemory>)
    requires forall x :: x in s <==> x in t.Values
    ensures var r := MapMemories(s);
      && (forall row :: row in t.Values ==> ToMemory(row) in r)
      && (forall i :: 0 <= i < |r| ==> StoredMemory(r[i], t))
  {
    var r := MapMemories(s);
    forall row | row in t.Values
      ensures ToMemory(row) in r
    {
      var i :| 0 <= i < |s| && s[i] == row;
      assert r[i] == ToMemory(row);
    }
    forall i | 0 <= i < |r|
      ensures StoredMemory(r[i], t)
    {
      assert s[i] in s;
      var row := s[i];
      assert row in t.Values && r[i] == ToMemory(row);
    }
  }

  lemma RowsAreValues(t: map<Id, CloudMemory>)
    ensures forall x :: x in Rows(t) <==> x in t.Values
  {
    forall x | x in t.Values
      ensures x in Rows(t)
    {
      var k :| k in t && t[k] == x;
    }
  }

  /** The loaded list runs from the latest date to the earliest, and lists exactly the stored rows, mapped. */
  lemma GetMemoriesListing(t: map<Id, CloudMemory>)
    ensures var r := GetMemories(t, None).value;
      && (forall i, j :: 0 <= i < j < |r| ==> LexLe(r[j].date, r[i].date))
      && (forall row :: row in t.Values ==> ToMemory(row) in r)
      && (forall i :: 0 <= i < |r| ==> StoredMemory(r[i], t))
  {
    LaterDateIsTotalPreorder();
    var s := SortBy(Rows(t), LaterDate);
    assert GetMemories(t, None).value == MapMemories(s);
    SortByKeepsElements(Rows(t), LaterDate);
    RowsAreValues(t);
    MemoriesDescending(s);
    MemoriesCover(s, t);
  }

  function CloudOwner(p: CloudPhoto): Id
  {
    p.memoryId
  }

  function PhotoRowsOf(t: map<Id, CloudPhoto>, memoryId: Id): (r: seq<CloudPhoto>)
    ensures forall p :: p in r <==> p in t.Values && p.memoryId == memoryId
  {
    var rows := Rows(t);
    assert forall p :: p in rows <==> p in t.Values by {
      forall p | p in t.Values
        ensures p in rows
      {
        var k :| k in t && t[k] == p;
      }
    }
    LocalDb.OwnedBy(rows, CloudOwner, memoryId)
  }

  /** `getPhotos(memoryId)`: the memory's photos, oldest first, as records. */
  function GetPhotos(t: map<Id, CloudPhoto>, memoryId: Id, readError: Option<string>): (r: Result<seq<Photo>>)
    ensures readError.Some? ==> r == Failure(readError.value)
    ensures readError.None? ==> r.Success?
  {
    if readError.Some? then Failure(readError.value)
    else Success(MapPhotos(SortBy(PhotoRowsOf(t, memoryId), EarlierRow)))
  }

  /** An oldest-first row order gives oldest-first records, and exactly the rows given. */
  lemma PhotosCover(s: seq<CloudPhoto>, t: map<Id, CloudPhoto>, memoryId: Id)
    requires SortedBy(s, EarlierRow)
    requires forall x :: x in s <==> x in t.Values && x.memoryId == memoryId
    ensures var r := MapPhotos(s);
      && (forall i, j :: 0 <= i < j < |r| ==> r[i].createdAt <= r[j].createdAt)
      && (forall i :: 0 <= i < |r| ==> r[i].memoryId == memoryId)
      && (forall row :: row in t.Values && row.memoryId == memoryId ==> ToPhoto(row) in r)
      && (forall i :: 0 <= i < |r| ==> StoredPhoto(r[i], t))
  {
    var r := MapPhotos(s);
    forall i, j | 0 <= i < j < |r|
      ensures r[i].createdAt <= r[j].createdAt
    {
      assert EarlierRow(s[i], s[j]);
    }
    forall i | 0 <= i < |r|
      ensures r[i].memoryId == memoryId
      ensures StoredPhoto(r[i], t)
    {
      assert s[i] in s;
      var row := s[i];
      assert row in t.Values && r[i] == ToPhoto(row);
    }
    forall row | row in t.Values && row.memoryId == memoryId
      ensures ToPhoto(row) in r
    {
      var i :| 0 <= i < |s| && s[i] == row;
      assert r[i] == ToPhoto(row);
    }
  }

  /** The photos come oldest first, each is a row of the memory, and every row of the memory is there. */
  lemma GetPhotosListing(t: map<Id, CloudPhoto>, memoryId: Id)
    ensures var r := GetPhotos(t, memoryId, None).value;
      && (forall i, j :: 0 <= i < j < |r| ==> r[i].createdAt <= r[j].createdAt)
      && (forall i :: 0 <= i < |r| ==> r[i].memoryId == memoryId)
      && (forall row :: row in t.Values && row.memoryId == memoryId ==> ToPhoto(row) in r)
      && (forall i :: 0 <= i < |r| ==> StoredPhoto(r[i], t))
  {
    var rows := PhotoRowsOf(t, memoryId);
    var s := SortBy(rows, EarlierRow);
    assert GetPhotos(t, memoryId, None).value == MapPhotos(s);
    SortByKeepsElements(rows, EarlierRow);
    PhotosCover(s, t, memoryId);
  }

  // ---- paths ----

  /**
   * `[storage_path, thumbnail_url]` of every row, flattened, with the falsy
   * entries (`null`, `''`) dropped.
   */
  function FilesToDelete(rows: seq<CloudPhoto>): (r: seq<string>)
    ensures "" !in r
    ensures |r| <= 2 * |rows|
    ensures forall f :: f in r <==> f != "" && exists p :: p in rows && (f == p.storagePath || p.thumbnailUrl == Some(f))
  {
    if |rows| == 0 then []
    else
      var p := rows[0];
      var here := (if p.storagePath != "" then [p.storagePath] else [])
                  + (if Truthy(p.thumbnailUrl).Some? then [p.thumbnailUrl.value] else []);
      var rest := FilesToDelete(rows[1..]);
      assert forall q :: q in rows <==> q == p || q in rows[1..] by {
        assert rows == [p] + rows[1..];
      }
      here + rest
  }

  /** The last piece of a split is the whole string, or the text after the last separator. */
  lemma {:induction false} SplitLastPreceded(s: string, sep: char)
    ensures var p := Split(s, sep); var last := p[|p| - 1];
      (|p| == 1 && last == s) || (|p| > 1 && |last| < |s| && s[|s| - |last| - 1] == sep)
    decreases |s|
  {
    SplitLastIsSuffix(s, sep);
    if |s| > 0 {
      var t := s[1..];
      SplitLastPreceded(t, sep);
      SplitLastStep(s, sep);
      var p := Split(s, sep);
      var rest := Split(t, sep);
      var last := rest[|rest| - 1];
      if s[0] != sep && |rest| == 1 {
        assert [s[0]] + t == s;
        assert |p| == 1 && p[0] == s;
      } else if |rest| > 1 {
        assert t[|t| - |last| - 1] == s[|s| - |last| - 1];
        assert |p| > 1 && p[|p| - 1] == last;
      } else {
        assert last == t && |p| == 2 && p[1] == last;
      }
    }
  }

  /** `seg` is the text after the last '.' of `name`: a non-empty dot-free suffix, the whole name or preceded by a dot. */
  predicate LastSegment(name: string, seg: string)
  {
    && seg != "" && '.' !in seg
    && |seg| <= |name| && seg == name[|name| - |seg|..]
    && (|seg| == |name| || name[|name| - |seg| - 1] == '.')
  }

  lemma LastPieceFacts(name: string)
    ensures var p := Split(name, '.'); var last := p[|p| - 1];
      && '.' !in last
      && |last| <= |name| && last == name[|name| - |last|..]
      && (|last| == |name| || name[|name| - |last| - 1] == '.')
      && (last == "" <==> name == "" || name[|name| - 1] == '.')
      && ('.' !in name ==> last == name)
  {
    SplitPiecesFree(name, '.');
    SplitLastIsSuffix(name, '.');
    SplitLastPreceded(name, '.');
    if '.' !in name {
      SplitNoSeparator(name, '.');
    }
  }

  /**
   * `file.name.split('.').pop() || 'jpg'`: the text after the last dot (the
   * whole name when there is none), and 'jpg' only when that text is empty.
   */
  function Extension(name: string): (ext: string)
    ensures name == "" || name[|name| - 1] == '.' ==> ext == "jpg"
    ensures name != "" && name[|name| - 1] != '.' ==> LastSegment(name, ext)
    ensures '.' !in name && name != "" ==> ext == name
  {
    var pieces := Split(name, '.');
    var last := pieces[|pieces| - 1];
    LastPieceFacts(name);
    if last == "" then "jpg" else last
  }

  /** `${userId}/${memoryId}/${photoId}.${ext}`. */
  function StoragePath(userId: Id, memoryId: Id, photoId: Id, fileName: string): (path: string)
    ensures path == userId + "/" + memoryId + "/" + photoId + "." + Extension(fileName)
  {
    userId + "/" + memoryId + "/" + photoId + "." + Extension(fileName)
  }

  lemma DotFreeSuffix(name: string, seg: string)
    requires LastSegment(name, seg)
    ensures forall k :: |name| - |seg| <= k < |name| ==> name[k] != '.'
  {
    forall k | |name| - |seg| <= k < |name|
      ensures name[k] != '.'
    {
      assert name[k] == seg[k - (|name| - |seg|)];
      assert seg[k - (|name| - |seg|)] in seg;
    }
  }

  /** A name has one text after its last dot. */
  lemma LastSegmentUnique(name: string, a: string, b: string)
    requires LastSegment(name, a) && LastSegment(name, b)
    ensures a == b
  {
    DotFreeSuffix(name, a);
    DotFreeSuffix(name, b);
    assert |a| >= |b|;
    assert |b| >= |a|;
  }

  /** The extension of a name that has a non-empty text after its last dot is exactly that text. */
  lemma ExtensionAfterLastDot(stem: string, ext: string)
    requires ext != "" && '.' !in ext
    ensures Extension(stem + "." + ext) == ext
  {
    var name := stem + "." + ext;
    assert name[|name| - |ext|..] == ext;
    assert name[|name| - |ext| - 1] == '.';
    assert name[|name| - 1] == ext[|ext| - 1];
    assert ext[|ext| - 1] in ext;
    assert LastSegment(name, ext);
    LastSegmentUnique(name, Extension(name), ext);
  }

  // ---- photo_count ----

  /** `(photo_count || 0) + 1`: a count that could not be read counts as 0. */
  function Bumped(count: Option<int>): (r: int)
    ensures count.Some? ==> r == count.value + 1
    ensures count.None? ==> r == 1
  {
    (if count.Some? then count.value else 0) + 1
  }

  /** `Math.max(0, (photo_count || 0) - 1)`. */
  function Dropped(count: Option<int>): (r: int)
    ensures r >= 0
    ensures count.Some? && count.value >= 1 ==> r == count.value - 1
    ensures count.None? || count.value <= 1 ==> r == 0
  {
    var c := (if count.Some? then count.value else 0) - 1;
    if c < 0 then 0 else c
  }

  /** Removing a photo after adding one restores any count that was not negative. */
  lemma DroppedUndoesBumped(count: int)
    requires count >= 0
    ensures Dropped(Some(Bumped(Some(count)))) == count
  {
  }

  /** The server's answers during one `uploadPhoto`. */
  datatype UploadAnswers = UploadAnswers(upload: Option<string>, dimensions: Option<Dimensions>, insert: Option<string>,
                                         countRead: bool, countWrite: bool)

  /** The server's answers during one `deletePhoto`. */
  datatype DeletePhotoAnswers = DeletePhotoAnswers(found: bool, storageRemoved: bool, delete: Option<string>,
                                                   countRead: bool, countWrite: bool)

  /** The server's answers during one `deleteMemory`. */
  datatype DeleteMemoryAnswers = DeleteMemoryAnswers(photosRead: bool, storageRemoved: bool, delete: Option<string>)

  /** The photo table without the rows of one memory: the rows the foreign key cascades to. */
  function Cascade(t: map<Id, CloudPhoto>, memoryId: Id): (r: map<Id, CloudPhoto>)
    ensures forall k :: k in r <==> k in t && t[k].memoryId != memoryId
    ensures forall k :: k in r ==> r[k] == t[k]
  {
    map k | k in t && t[k].memoryId != memoryId :: t[k]
  }

  /** The paths `deleteMemory` asks the bucket to remove, given whether the photo query answered. */
  function DeletionPaths(t: map<Id, CloudPhoto>, memoryId: Id, photosRead: bool): (paths: seq<string>)
    ensures !photosRead ==> paths == []
    ensures photosRead ==> forall f :: f in paths <==>
      f != "" && exists p :: p in t.Values && p.memoryId == memoryId && (f == p.storagePath || p.thumbnailUrl == Some(f))
  {
    if photosRead then FilesToDelete(PhotoRowsOf(t, memoryId)) else []
  }

  /** The memory's count after a change, written only when the row is there and the write goes through. */
  function WithCount(t: map<Id, CloudMemory>, memoryId: Id, count: int, written: bool): (r: map<Id, CloudMemory>)
    ensures r.Keys == t.Keys
    ensures forall k :: k in t && k != memoryId ==> r[k] == t[k]
    ensures memoryId in t ==> r[memoryId] == if written then t[memoryId].(photoCount := count) else t[memoryId]
  {
    if memoryId in t && written then t[memoryId := t[memoryId].(photoCount := count)] else t
  }

  function CountOf(t: map<Id, CloudMemory>, memoryId: Id, read: bool): (r: Option<int>)
    ensures r.Some? <==> read && memoryId in t
    ensures r.Some? ==> r.value == t[memoryId].photoCount
  {
    if read && memoryId in t then Some(t[memoryId].photoCount) else None
  }

  /** The paths of a request, as a set. */
  function Elements(paths: seq<string>): (r: set<string>)
    ensures forall f :: f in r <==> f in paths
  {
    set f | f in paths
  }

  /** The remote tables and the bucket, with the remove requests the bucket has received. */
  class Cloud {
    var memories: map<Id, CloudMemory>
    var photos: map<Id, CloudPhoto>
    /** The bucket: stored bytes by path. */
    var objects: map<string, Blob>
    /** Every `storage.remove(paths)` request, in order. */
    var removeRequests: seq<seq<string>>

    constructor()
      ensures memories == map[] && photos == map[] && objects == map[] && removeRequests == []
    {
      memories := map[];
      photos := map[];
      objects := map[];
      removeRequests := [];
    }

    /**
     * `createMemory(date, note)`: needs a signed-in user; the new row has
     * no photos yet. `newId` is the key the database generates.
     */
    method CreateMemory(date: string, note: string, user: Option<Id>, newId: Id, insertError: Option<string>, now: int)
      returns (r: Result<Id>)
      modifies this
      ensures user.None? ==> r == Failure(NotSignedIn) && memories == old(memories)
      ensures user.Some? && insertError.Some? ==> r == Failure(insertError.value) && memories == old(memories)
      ensures user.Some? && insertError.None? && newId in old(memories) ==>
        r == Failure(DuplicateKey) && memories == old(memories)
      ensures user.Some? && insertError.None? && newId !in old(memories) ==>
        && r == Success(newId)
        && memories == old(memories)[newId := CloudMemory(newId, user.value, date, Some(note), 0, now, now)]
      ensures photos == old(photos) && objects == old(objects) && removeRequests == old(removeRequests)
    {
      if user.None? {
        return Failure(NotSignedIn);
      }
      if insertError.Some? {
        return Failure(insertError.value);
      }
      if newId in memories {
        return Failure(DuplicateKey);
      }
      memories := memories[newId := CloudMemory(newId, user.value, date, Some(note), 0, now, now)];
      r := Success(newId);
    }

    /** `updateMemory(memoryId, date, note)`: overwrites date and note and stamps the time; an unknown id matches no row. */
    method UpdateMemory(memoryId: Id, date: string, note: string, updateError: Option<string>, now: int)
      returns (r: Outcome)
      modifies this
      ensures updateError.Some? ==> r == Fail(updateError.value) && memories == old(memories)
      ensures updateError.None? ==>
        && r == Pass
        && memories == (if memoryId in old(memories)
                        then old(memories)[memoryId := old(memories)[memoryId].(date := date, note := Some(note), updatedAt := now)]
                        else old(memories))
      ensures photos == old(photos) && objects == old(objects) && removeRequests == old(removeRequests)
    {
      if updateError.Some? {
        return Fail(updateError.value);
      }
      if memoryId in memories {
        memories := memories[memoryId := memories[memoryId].(date := date, note := Some(note), updatedAt := now)];
      }
      r := Pass;
    }

    /** `storage.remove(paths)`: the request is recorded; the paths go when the bucket complies. */
    method RemoveObjects(paths: seq<string>, removed: bool)
      modifies this`removeRequests, this`objects
      ensures removeRequests == old(removeRequests) + [paths]
      ensures objects == if removed then old(objects) - Elements(paths) else old(objects)
    {
      removeRequests := removeRequests + [paths];
      if removed {
        objects := objects - Elements(paths);
      }
    }

    /**
     * `deleteMemory(memoryId)`: the bucket is asked to remove the memory's
     * files first, and only when there are any; then the row goes, and the
     * database cascades to its photo rows. Only a failed row delete throws,
     * and by then the files are already gone.
     */
    method DeleteMemory(memoryId: Id, answers: DeleteMemoryAnswers) returns (r: Outcome)
      modifies this
      ensures var paths := DeletionPaths(old(photos), memoryId, answers.photosRead);
        && removeRequests == old(removeRequests) + (if |paths| > 0 then [paths] else [])
        && objects == (if |paths| > 0 && answers.storageRemoved then old(objects) - Elements(paths) else old(objects))
      ensures answers.delete.Some? ==> r == Fail(answers.delete.value) && memories == old(memories) && photos == old(photos)
      ensures answers.delete.None? ==>
        r == Pass && memories == old(memories) - {memoryId} && photos == Cascade(old(photos), memoryId)
    {
      RemoveFilesOf(memoryId, answers.photosRead, answers.storageRemoved);
      if answers.delete.None? {
        memories := memories - {memoryId};
        photos := Cascade(photos, memoryId);
        r := Pass;
      } else {
        r := Fail(answers.delete.value);
      }
    }

    /** The first step of `deleteMemory`: the memory's files are removed, when it has any. */
    method RemoveFilesOf(memoryId: Id, photosRead: bool, removed: bool)
      modifies this`removeRequests, this`objects
      ensures var paths := DeletionPaths(photos, memoryId, photosRead);
        && removeRequests == old(removeRequests) + (if |paths| > 0 then [paths] else [])
        && objects == (if |paths| > 0 && removed then old(objects) - Elements(paths) else old(objects))
    {
      var paths := DeletionPaths(photos, memoryId, photosRead);
      if |paths| > 0 {
        RemoveObjects(paths, removed);
      }
    }

    /**
     * `uploadPhoto(memoryId, file, userId)`: the file goes to the bucket
     * first; only then is its row inserted (`rowId` is the key the database
     * generates) and the memory's count bumped. A failure after the upload
     * leaves the uploaded file in place.
     */
    method UploadPhoto(memoryId: Id, file: File, userId: Id, photoId: Id, urlOf: string -> string,
                       rowId: Id, answers: UploadAnswers, now: int)
      returns (r: Result<Photo>)
      modifies this
      ensures var path := StoragePath(userId, memoryId, photoId, file.name);
        && (answers.upload.Some? ==> r == Failure(answers.upload.value) && objects == old(objects))
        && (answers.upload.None? ==> objects == old(objects)[path := file.blob])
      ensures answers.upload.Some? || answers.dimensions.None? || answers.insert.Some? || rowId in old(photos) ==>
        r.Failure? && photos == old(photos) && memories == old(memories)
      ensures answers.upload.None? && answers.dimensions.None? ==> r.Failure?
      ensures answers.upload.None? && answers.dimensions.Some? && answers.insert.Some? ==> r == Failure(answers.insert.value)
      ensures answers.upload.None? && answers.dimensions.Some? && answers.insert.None? && rowId in old(photos) ==>
        r == Failure(DuplicateKey)
      ensures answers.upload.None? && answers.dimensions.Some? && answers.insert.None? && rowId !in old(photos) ==>
        var path := StoragePath(userId, memoryId, photoId, file.name);
        var d := answers.dimensions.value;
        && photos == old(photos)[rowId := CloudPhoto(rowId, memoryId, userId, path, urlOf(path), None, Some(file.blob.mime),
                                                     Some(Size(file.blob)), Some(d.width), Some(d.height), now)]
        && memories == WithCount(old(memories), memoryId, Bumped(CountOf(old(memories), memoryId, answers.countRead)),
                                 answers.countWrite)
        && r == Success(Photo(rowId, memoryId, file.blob, file.blob.mime, now, Some(urlOf(path)), None))
      ensures removeRequests == old(removeRequests)
    {
      var path := StoragePath(userId, memoryId, photoId, file.name);
      if answers.upload.Some? {
        return Failure(answers.upload.value);
      }
      objects := objects[path := file.blob];
      var url := urlOf(path);
      if answers.dimensions.None? {
        return Failure("Failed to load image");
      }
      var d := answers.dimensions.value;
      if answers.insert.Some? {
        return Failure(answers.insert.value);
      }
      if rowId in photos {
        return Failure(DuplicateKey);
      }
      photos := photos[rowId := CloudPhoto(rowId, memoryId, userId, path, url, None, Some(file.blob.mime),
                                           Some(Size(file.blob)), Some(d.width), Some(d.height), now)];
      var count := CountOf(memories, memoryId, answers.countRead);
      memories := WithCount(memories, memoryId, Bumped(count), answers.countWrite);
      r := Success(Photo(rowId, memoryId, file.blob, file.blob.mime, now, Some(url), None));
    }

    /**
     * `deletePhoto(photoId)`: an unknown photo throws; the file removal is
     * attempted and its failure only logged; a failed row delete throws;
     * then the owner's count drops, never below 0.
     */
    method DeletePhoto(photoId: Id, answers: DeletePhotoAnswers) returns (r: Outcome)
      modifies this
      ensures !answers.found || photoId !in old(photos) ==>
        r == Fail(PhotoMissing) && memories == old(memories) && photos == old(photos)
        && objects == old(objects) && removeRequests == old(removeRequests)
      ensures answers.found && photoId in old(photos) ==>
        var row := old(photos)[photoId];
        && removeRequests == old(removeRequests) + [[row.storagePath]]
        && objects == (if answers.storageRemoved then old(objects) - {row.storagePath} else old(objects))
        && (answers.delete.Some? ==> r == Fail(answers.delete.value) && photos == old(photos) && memories == old(memories))
        && (answers.delete.None? ==>
              && r == Pass && photos == old(photos) - {photoId}
              && memories == WithCount(old(memories), row.memoryId,
                                       Dropped(CountOf(old(memories), row.memoryId, answers.countRead)), answers.countWrite))
    {
      if !answers.found || photoId !in photos {
        return Fail(PhotoMissing);
      }
      var row := photos[photoId];
      RemoveObjects([row.storagePath], answers.storageRemoved);
      assert Elements([row.storagePath]) == {row.storagePath};
      if answers.delete.Some? {
        return Fail(answers.delete.value);
      }
      photos := photos - {photoId};
      var count := CountOf(memories, row.memoryId, answers.countRead);
      memories := WithCount(memories, row.memoryId, Dropped(count), answers.countWrite);
      r := Pass;
    }
  }

  /** After a successful memory delete no photo row of it is left, and every other row is untouched. */
  lemma DeleteMemoryLeavesNoPhotos(t: map<Id, CloudPhoto>, memoryId: Id)
    ensures forall k :: k in Cascade(t, memoryId) ==> Cascade(t, memoryId)[k].memoryId != memoryId
    ensures forall k :: k in t && t[k].memoryId != memoryId ==> k in Cascade(t, memoryId)
    ensures PhotoRowsOf(Cascade(t, memoryId), memoryId) == []
  {
    var c := Cascade(t, memoryId);
    var rows := Rows(c);
    forall i | 0 <= i < |rows|
      ensures rows[i].memoryId != memoryId
    {
      assert rows[i] in c.Values;
    }
    LocalDb.NoneOwnedBy(rows, CloudOwner, memoryId);
  }

  /** Every file of the memory's photos is among the paths `deleteMemory` removes when the query answers. */
  lemma DeletionPathsCoverPhotos(t: map<Id, CloudPhoto>, memoryId: Id, k: Id)
    requires k in t && t[k].memoryId == memoryId
    ensures t[k].storagePath != "" ==> t[k].storagePath in DeletionPaths(t, memoryId, true)
    ensures Truthy(t[k].thumbnailUrl).Some? ==> t[k].thumbnailUrl.value in DeletionPaths(t, memoryId, true)
  {
    assert t[k] in t.Values;
  }
}

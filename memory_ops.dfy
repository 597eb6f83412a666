/**
 * What each operation of the memory hook does to the two tables, as
 * functions of the tables before the call. A failing call is not rolled
 * back: rows written before the failure stay, as in the source.
 */
module MemoryOps {
  import opened Wrappers
  import opened Blobs
  import opened Strings
  import opened DataUrl
  import opened LocalDb
  import opened Listing

  /**
   * The hook's compressor, `imageCompression` with a 1 MB / 1920 px budget;
   * `None` where it throws.
   */
  type Compressor = Blob -> Option<Blob>

  /** The fresh-id oracle: the n-th call of `crypto.randomUUID()`. */
  type Uuids = nat -> Id

  /** The row `photos.add` receives for a compressed file. */
  function PhotoRow(id: Id, memoryId: Id, compressed: Blob, now: int): (p: Photo)
    ensures p.id == id && p.memoryId == memoryId && p.createdAt == now
    ensures p.blob.bytes == compressed.bytes && p.mimeType == compressed.mime
  {
    Photo(id, memoryId, Blob(compressed.bytes, BlobType(compressed.mime)), compressed.mime, now)
  }

  /** The fresh ids `uuid(base)`, ..., `uuid(base + n - 1)`. */
  function FreshIds(uuid: Uuids, base: nat, n: nat): (ids: seq<Id>)
    ensures |ids| == n && forall i :: 0 <= i < n ==> ids[i] == uuid(base + i)
  {
    seq(n, i requires 0 <= i < n => uuid(base + i))
  }

  /** The photos table and the ids pushed so far by a photo loop, and whether it is still running. */
  datatype Progress = Progress(photos: map<Id, Photo>, added: seq<Id>, ok: bool)

  /**
   * The photo loop of `createMemory` and `updateMemory` after the given
   * files: each file is compressed, given the next fresh id and added; the
   * loop stops at the first compressor failure or key clash.
   */
  function AddPhotos(photos: map<Id, Photo>, memoryId: Id, files: seq<Blob>,
                     compress: Compressor, uuid: Uuids, base: nat, now: int): (p: Progress)
    ensures |p.added| <= |files|
    decreases |files|
  {
    if |files| == 0 then Progress(photos, [], true)
    else
      var prev := AddPhotos(photos, memoryId, files[..|files| - 1], compress, uuid, base, now);
      if !prev.ok then prev
      else
        var c := compress(files[|files| - 1]);
        var id := uuid(base + |files| - 1);
        if c.None? || id in prev.photos then Progress(prev.photos, prev.added, false)
        else Progress(prev.photos[id := PhotoRow(id, memoryId, c.value, now)], prev.added + [id], true)
  }

  /** One more file through the loop of `addPhotos`, from a prefix that has not failed. */
  lemma AddPhotosNext(photos: map<Id, Photo>, memoryId: Id, files: seq<Blob>, i: nat,
                      compress: Compressor, uuid: Uuids, base: nat, now: int)
    requires i < |files| && AddPhotos(photos, memoryId, files[..i], compress, uuid, base, now).ok
    ensures var prev := AddPhotos(photos, memoryId, files[..i], compress, uuid, base, now);
      var c := compress(files[i]);
      var id := uuid(base + i);
      AddPhotos(photos, memoryId, files[..i + 1], compress, uuid, base, now) ==
        if c.None? || id in prev.photos then Progress(prev.photos, prev.added, false)
        else Progress(prev.photos[id := PhotoRow(id, memoryId, c.value, now)], prev.added + [id], true)
  {
    assert files[..i + 1][..i] == files[..i];
  }

  /** The ids pushed are the first fresh ids in file order, one per file when the loop finishes. */
  lemma {:induction false} AddPhotosIds(photos: map<Id, Photo>, memoryId: Id, files: seq<Blob>,
                                        compress: Compressor, uuid: Uuids, base: nat, now: int)
    ensures var p := AddPhotos(photos, memoryId, files, compress, uuid, base, now);
      && p.added == FreshIds(uuid, base, |p.added|)
      && (p.ok ==> |p.added| == |files|)
    decreases |files|
  {
    if |files| > 0 {
      AddPhotosIds(photos, memoryId, files[..|files| - 1], compress, uuid, base, now);
    }
  }

  /** Whatever happens, every row already stored stays as it was: nothing is dropped or rolled back. */
  lemma {:induction false} AddPhotosKeepsRows(photos: map<Id, Photo>, memoryId: Id, files: seq<Blob>,
                                              compress: Compressor, uuid: Uuids, base: nat, now: int)
    ensures var p := AddPhotos(photos, memoryId, files, compress, uuid, base, now);
      forall k :: k in photos ==> k in p.photos && p.photos[k] == photos[k]
    decreases |files|
  {
    if |files| > 0 {
      AddPhotosKeepsRows(photos, memoryId, files[..|files| - 1], compress, uuid, base, now);
    }
  }

  /** Every key after the loop was there before or is a pushed id. */
  lemma {:induction false} AddPhotosNewKeys(photos: map<Id, Photo>, memoryId: Id, files: seq<Blob>,
                                            compress: Compressor, uuid: Uuids, base: nat, now: int)
    ensures var p := AddPhotos(photos, memoryId, files, compress, uuid, base, now);
      forall k :: k in p.photos ==> k in photos || k in p.added
    decreases |files|
  {
    if |files| > 0 {
      AddPhotosNewKeys(photos, memoryId, files[..|files| - 1], compress, uuid, base, now);
    }
  }

  /** Once the loop has stopped on a prefix of the files, later files change nothing. */
  lemma {:induction false} AddPhotosHalts(photos: map<Id, Photo>, memoryId: Id, files: seq<Blob>, n: nat,
                                          compress: Compressor, uuid: Uuids, base: nat, now: int)
    requires n <= |files| && !AddPhotos(photos, memoryId, files[..n], compress, uuid, base, now).ok
    ensures AddPhotos(photos, memoryId, files, compress, uuid, base, now) == AddPhotos(photos, memoryId, files[..n], compress, uuid, base, now)
    decreases |files| - n
  {
    if n < |files| {
      var m := |files| - 1;
      assert files[..m][..n] == files[..n];
      AddPhotosHalts(photos, memoryId, files[..m], n, compress, uuid, base, now);
    } else {
      assert files[..n] == files;
    }
  }

  /**
   * The pushed ids `added` are new to `photos`, present in `rows`, and each
   * holds the file at the same position, compressed, owned by the memory.
   */
  ghost predicate RowsOfFiles(photos: map<Id, Photo>, rows: map<Id, Photo>, added: seq<Id>, memoryId: Id,
                              files: seq<Blob>, compress: Compressor, now: int)
  {
    && |added| <= |files|
    && forall i :: 0 <= i < |added| ==>
      && added[i] !in photos && added[i] in rows
      && compress(files[i]).Some?
      && rows[added[i]] == PhotoRow(added[i], memoryId, compress(files[i]).value, now)
  }

  /** Every pushed id is new to the table and holds its file, compressed, owned by the memory. */
  lemma {:induction false} AddPhotosNewRows(photos: map<Id, Photo>, memoryId: Id, files: seq<Blob>,
                                            compress: Compressor, uuid: Uuids, base: nat, now: int)
    ensures var p := AddPhotos(photos, memoryId, files, compress, uuid, base, now);
      RowsOfFiles(photos, p.photos, p.added, memoryId, files, compress, now)
    decreases |files|
  {
    if |files| > 0 {
      var n := |files| - 1;
      var init := files[..n];
      AddPhotosNewRows(photos, memoryId, init, compress, uuid, base, now);
      AddPhotosKeepsRows(photos, memoryId, init, compress, uuid, base, now);
      AddPhotosIds(photos, memoryId, init, compress, uuid, base, now);
      var prev := AddPhotos(photos, memoryId, init, compress, uuid, base, now);
      var p := AddPhotos(photos, memoryId, files, compress, uuid, base, now);
      assert files == init + [files[n]];
      if prev.ok && p.ok {
        var id := uuid(base + n);
        var c := compress(files[n]).value;
        assert p == Progress(prev.photos[id := PhotoRow(id, memoryId, c, now)], prev.added + [id], true);
        NewRowsExtend(photos, memoryId, init, files[n], compress, now, prev.photos, prev.added, id);
      } else {
        assert p.added == prev.added && p.photos == prev.photos;
        NewRowsWiden(photos, memoryId, init, files[n], compress, now, prev.photos, prev.added);
      }
    }
  }

  /** The rows of a photo loop stay the rows of the files when one more file is added under a new id. */
  lemma NewRowsExtend(photos: map<Id, Photo>, memoryId: Id, init: seq<Blob>, last: Blob, compress: Compressor, now: int,
                      rows: map<Id, Photo>, added: seq<Id>, id: Id)
    requires RowsOfFiles(photos, rows, added, memoryId, init, compress, now) && |added| == |init|
    requires id !in rows && compress(last).Some?
    requires forall k :: k in photos ==> k in rows
    ensures RowsOfFiles(photos, rows[id := PhotoRow(id, memoryId, compress(last).value, now)], added + [id],
                        memoryId, init + [last], compress, now)
  {
    var files := init + [last];
    var rows' := rows[id := PhotoRow(id, memoryId, compress(last).value, now)];
    var added' := added + [id];
    forall i | 0 <= i < |added'|
      ensures added'[i] !in photos && added'[i] in rows' && compress(files[i]).Some?
      ensures rows'[added'[i]] == PhotoRow(added'[i], memoryId, compress(files[i]).value, now)
    {
      if i < |added| {
        assert files[i] == init[i] && added'[i] == added[i] != id;
      }
    }
  }

  /** The rows of a photo loop over some files are its rows over any longer list of files. */
  lemma NewRowsWiden(photos: map<Id, Photo>, memoryId: Id, init: seq<Blob>, last: Blob, compress: Compressor, now: int,
                     rows: map<Id, Photo>, added: seq<Id>)
    requires RowsOfFiles(photos, rows, added, memoryId, init, compress, now)
    ensures RowsOfFiles(photos, rows, added, memoryId, init + [last], compress, now)
  {
    assert forall i :: 0 <= i < |init| ==> (init + [last])[i] == init[i];
  }

  /** Added rows are stored under their own ids. */
  lemma AddPhotosKeepsKeyed(photos: map<Id, Photo>, memoryId: Id, files: seq<Blob>,
                            compress: Compressor, uuid: Uuids, base: nat, now: int)
    requires PhotosKeyed(photos)
    ensures PhotosKeyed(AddPhotos(photos, memoryId, files, compress, uuid, base, now).photos)
  {
    AddPhotosNewKeys(photos, memoryId, files, compress, uuid, base, now);
    AddPhotosNewRows(photos, memoryId, files, compress, uuid, base, now);
    AddPhotosKeepsRows(photos, memoryId, files, compress, uuid, base, now);
  }

  /** Every file compresses, and the ids it would get are new to the table and distinct. */
  predicate Feasible(photos: map<Id, Photo>, files: seq<Blob>, compress: Compressor, ids: seq<Id>)
    requires |ids| == |files|
  {
    && (forall i :: 0 <= i < |files| ==> compress(files[i]).Some?)
    && (forall i :: 0 <= i < |ids| ==> ids[i] !in photos)
    && (forall i, j :: 0 <= i < j < |ids| ==> ids[i] != ids[j])
  }

  lemma FeasibleExtend(photos: map<Id, Photo>, files: seq<Blob>, compress: Compressor, ids: seq<Id>)
    requires |ids| == |files| > 0
    ensures var n := |files| - 1;
      Feasible(photos, files, compress, ids) <==>
        && Feasible(photos, files[..n], compress, ids[..n])
        && compress(files[n]).Some? && ids[n] !in photos && ids[n] !in ids[..n]
  {
    var n := |files| - 1;
    assert forall i :: 0 <= i < n ==> files[..n][i] == files[i] && ids[..n][i] == ids[i];
    if ids[n] in ids[..n] {
      var i :| 0 <= i < n && ids[..n][i] == ids[n];
    }
  }

  /** The photo loop finishes exactly when every file compresses and the fresh ids are new and distinct. */
  lemma {:induction false} AddPhotosSucceeds(photos: map<Id, Photo>, memoryId: Id, files: seq<Blob>,
                                             compress: Compressor, uuid: Uuids, base: nat, now: int)
    ensures AddPhotos(photos, memoryId, files, compress, uuid, base, now).ok <==>
      Feasible(photos, files, compress, FreshIds(uuid, base, |files|))
    decreases |files|
  {
    if |files| > 0 {
      var n := |files| - 1;
      var init := files[..n];
      var ids := FreshIds(uuid, base, |files|);
      assert ids[..n] == FreshIds(uuid, base, n);
      FeasibleExtend(photos, files, compress, ids);
      AddPhotosSucceeds(photos, memoryId, init, compress, uuid, base, now);
      AddPhotosStep(photos, memoryId, files, compress, uuid, base, now);
    }
  }

  /** One more file: the loop goes on when it was running, the file compresses and its id is free. */
  lemma AddPhotosStep(photos: map<Id, Photo>, memoryId: Id, files: seq<Blob>,
                      compress: Compressor, uuid: Uuids, base: nat, now: int)
    requires |files| > 0
    ensures var n := |files| - 1;
      var prev := AddPhotos(photos, memoryId, files[..n], compress, uuid, base, now);
      AddPhotos(photos, memoryId, files, compress, uuid, base, now).ok <==>
        prev.ok && compress(files[n]).Some? && uuid(base + n) !in photos && uuid(base + n) !in FreshIds(uuid, base, n)
  {
    var n := |files| - 1;
    var init := files[..n];
    AddPhotosIds(photos, memoryId, init, compress, uuid, base, now);
    AddPhotosNewKeys(photos, memoryId, init, compress, uuid, base, now);
    AddPhotosNewRows(photos, memoryId, init, compress, uuid, base, now);
    AddPhotosKeepsRows(photos, memoryId, init, compress, uuid, base, now);
    var prev := AddPhotos(photos, memoryId, init, compress, uuid, base, now);
    if prev.ok {
      var id := uuid(base + n);
      assert prev.added == FreshIds(uuid, base, n);
      assert id in prev.photos <==> id in photos || id in prev.added;
    }
  }

  /** A call's effect: the tables afterwards, and whether it completed or threw. */
  datatype Effect = Effect(tables: Tables, ok: bool)

  /** `note || existingMemory.note`: an empty note keeps the old one. */
  function MergedNote(note: string, previous: string): (r: string)
    ensures note != "" ==> r == note
    ensures note == "" ==> r == previous
  {
    if note != "" then note else previous
  }

  /** The memory create writes to: the one already on the date, or the first fresh id. */
  function TargetId(t: Tables, date: string, uuid: Uuids): Id
  {
    var existing := FirstOnDate(t.memories, date);
    if existing.Some? then existing.value.id else uuid(0)
  }

  /** The index of the first fresh id a photo gets: 1 when a new memory has drawn id 0. */
  function PhotoBase(t: Tables, date: string): nat
  {
    if FirstOnDate(t.memories, date).Some? then 0 else 1
  }

  /**
   * `createMemory(date, note, files)`. When a memory already exists on the
   * date, its photos get the new ids appended and the note is merged;
   * otherwise a memory is added under a fresh id, drawn before the photo ids.
   */
  function CreateEffect(t: Tables, date: string, note: string, files: seq<Blob>,
                        compress: Compressor, uuid: Uuids, now: int): Effect
  {
    var existing := FirstOnDate(t.memories, date);
    var memoryId := TargetId(t, date, uuid);
    var p := AddPhotos(t.photos, memoryId, files, compress, uuid, PhotoBase(t, date), now);
    var ok := p.ok && (existing.Some? || memoryId !in t.memories);
    var memories :=
      if !ok then t.memories
      else if existing.Some? then
        var m := existing.value;
        t.memories[m.id := m.(note := MergedNote(note, m.note), photoIds := m.photoIds + p.added, updatedAt := now)]
      else t.memories[memoryId := Memory(memoryId, date, note, p.added, now, now)];
    Effect(Tables(memories, p.photos), ok)
  }

  /** The three ways a create ends, spelled out for the loop that performs it. */
  lemma CreateEffectCases(t: Tables, date: string, note: string, files: seq<Blob>,
                          compress: Compressor, uuid: Uuids, now: int)
    requires Keyed(t)
    ensures var existing := FirstOnDate(t.memories, date);
      var memoryId := TargetId(t, date, uuid);
      var p := AddPhotos(t.photos, memoryId, files, compress, uuid, PhotoBase(t, date), now);
      var e := CreateEffect(t, date, note, files, compress, uuid, now);
      && (!p.ok ==> e == Effect(Tables(t.memories, p.photos), false))
      && (p.ok && existing.Some? ==>
            && memoryId == existing.value.id && memoryId in t.memories && t.memories[memoryId] == existing.value
            && e == Effect(Tables(t.memories[memoryId := existing.value.(note := MergedNote(note, existing.value.note),
                                                                         photoIds := existing.value.photoIds + p.added,
                                                                         updatedAt := now)], p.photos), true))
      && (p.ok && existing.None? ==>
            e == Effect(Tables(if memoryId in t.memories then t.memories
                               else t.memories[memoryId := Memory(memoryId, date, note, p.added, now, now)], p.photos),
                        memoryId !in t.memories))
  {
  }

  // ---- create: properties ----

  /** Create's photo table is the photo loop's, and a create that succeeds finished the loop. */
  lemma CreatePhotoTable(t: Tables, date: string, note: string, files: seq<Blob>,
                         compress: Compressor, uuid: Uuids, now: int)
    ensures var e := CreateEffect(t, date, note, files, compress, uuid, now);
      var p := AddPhotos(t.photos, TargetId(t, date, uuid), files, compress, uuid, PhotoBase(t, date), now);
      && e.tables.photos == p.photos
      && (e.ok ==> p.ok)
      && (!e.ok ==> e.tables.memories == t.memories)
  {
  }

  /** A failed create leaves every memory as it was, and every photo that was stored. */
  lemma CreateFailureKeepsMemories(t: Tables, date: string, note: string, files: seq<Blob>,
                                   compress: Compressor, uuid: Uuids, now: int)
    ensures var e := CreateEffect(t, date, note, files, compress, uuid, now);
      !e.ok ==>
        && e.tables.memories == t.memories
        && forall k :: k in t.photos ==> k in e.tables.photos && e.tables.photos[k] == t.photos[k]
  {
    CreatePhotoTable(t, date, note, files, compress, uuid, now);
    AddPhotosKeepsRows(t.photos, TargetId(t, date, uuid), files, compress, uuid, PhotoBase(t, date), now);
  }

  /**
   * Create on a date that has a memory reuses it: no memory is added, the
   * new photo ids follow the old ones in file order, the date and creation
   * time stay, and an empty note keeps the old note.
   */
  lemma CreateMergesIntoExisting(t: Tables, date: string, note: string, files: seq<Blob>,
                                 compress: Compressor, uuid: Uuids, now: int, m: Memory)
    requires Keyed(t)
    requires m in t.memories.Values && m.date == date
    ensures var e := CreateEffect(t, date, note, files, compress, uuid, now);
      var first := FirstOnDate(t.memories, date).value;
      e.ok ==>
        && e.tables.memories.Keys == t.memories.Keys
        && (forall k :: k in t.memories && k != first.id ==> e.tables.memories[k] == t.memories[k])
        && var merged := e.tables.memories[first.id];
        && merged.id == first.id && merged.date == date && merged.createdAt == first.createdAt
        && merged.photoIds == first.photoIds + FreshIds(uuid, 0, |files|)
        && merged.note == (if note == "" then first.note else note)
        && merged.updatedAt == now
  {
    var first := FirstOnDate(t.memories, date);
    assert first.Some?;
    AddPhotosIds(t.photos, first.value.id, files, compress, uuid, 0, now);
  }

  /**
   * Create on a date with no memory adds exactly one, under the first fresh
   * id, created and updated at `now`, owning one new photo per file, each
   * created at `now`.
   */
  lemma CreateAddsNewMemory(t: Tables, date: string, note: string, files: seq<Blob>,
                            compress: Compressor, uuid: Uuids, now: int)
    requires forall k :: k in t.memories ==> t.memories[k].date != date
    ensures var e := CreateEffect(t, date, note, files, compress, uuid, now);
      var id := uuid(0);
      e.ok ==>
        && id !in t.memories
        && e.tables.memories == t.memories[id := Memory(id, date, note, FreshIds(uuid, 1, |files|), now, now)]
        && |e.tables.memories| == |t.memories| + 1
  {
    AddPhotosIds(t.photos, uuid(0), files, compress, uuid, 1, now);
  }

  /**
   * A completed create adds one photo per file, under the fresh ids in
   * file order, each owned by the target memory and created at `now`,
   * and keeps every photo that was there.
   */
  lemma CreateAddsPhotos(t: Tables, date: string, note: string, files: seq<Blob>,
                         compress: Compressor, uuid: Uuids, now: int)
    ensures var e := CreateEffect(t, date, note, files, compress, uuid, now);
      var ids := FreshIds(uuid, PhotoBase(t, date), |files|);
      e.ok ==>
        && e.tables.photos.Keys == t.photos.Keys + (set x | x in ids)
        && |e.tables.photos| == |t.photos| + |files|
        && (forall i :: 0 <= i < |files| ==>
              var p := e.tables.photos[ids[i]];
              p.memoryId == TargetId(t, date, uuid) && p.createdAt == now && p.id == ids[i])
        && (forall k :: k in t.photos ==> e.tables.photos[k] == t.photos[k])
  {
    CreatePhotoTable(t, date, note, files, compress, uuid, now);
    if CreateEffect(t, date, note, files, compress, uuid, now).ok {
      AddPhotosComplete(t.photos, TargetId(t, date, uuid), files, compress, uuid, PhotoBase(t, date), now);
    }
  }

  /** A finished photo loop adds exactly the fresh ids, one row per file, and keeps the old rows. */
  lemma AddPhotosComplete(photos: map<Id, Photo>, memoryId: Id, files: seq<Blob>,
                          compress: Compressor, uuid: Uuids, base: nat, now: int)
    requires AddPhotos(photos, memoryId, files, compress, uuid, base, now).ok
    ensures var p := AddPhotos(photos, memoryId, files, compress, uuid, base, now);
      var ids := FreshIds(uuid, base, |files|);
      && p.added == ids
      && p.photos.Keys == photos.Keys + (set x | x in ids)
      && |p.photos| == |photos| + |files|
      && (forall i :: 0 <= i < |files| ==>
            var r := p.photos[ids[i]];
            r.memoryId == memoryId && r.createdAt == now && r.id == ids[i])
      && (forall k :: k in photos ==> p.photos[k] == photos[k])
  {
    var p := AddPhotos(photos, memoryId, files, compress, uuid, base, now);
    var ids := FreshIds(uuid, base, |files|);
    AddPhotosIds(photos, memoryId, files, compress, uuid, base, now);
    assert p.added == ids;
    AddPhotosKeepsRows(photos, memoryId, files, compress, uuid, base, now);
    AddPhotosNewRows(photos, memoryId, files, compress, uuid, base, now);
    forall i | 0 <= i < |files|
      ensures var r := p.photos[ids[i]]; r.memoryId == memoryId && r.createdAt == now && r.id == ids[i]
    {
      assert p.added[i] == ids[i];
    }
    AddPhotosGrowth(photos, memoryId, files, compress, uuid, base, now);
  }

  /** A finished photo loop adds the fresh ids as keys, one new key per file. */
  lemma AddPhotosGrowth(photos: map<Id, Photo>, memoryId: Id, files: seq<Blob>,
                        compress: Compressor, uuid: Uuids, base: nat, now: int)
    requires AddPhotos(photos, memoryId, files, compress, uuid, base, now).ok
    ensures var p := AddPhotos(photos, memoryId, files, compress, uuid, base, now);
      var ids := FreshIds(uuid, base, |files|);
      p.photos.Keys == photos.Keys + (set x | x in ids) && |p.photos| == |photos| + |files|
  {
    var p := AddPhotos(photos, memoryId, files, compress, uuid, base, now);
    var ids := FreshIds(uuid, base, |files|);
    AddPhotosKeys(photos, memoryId, files, compress, uuid, base, now);
    AddPhotosSucceeds(photos, memoryId, files, compress, uuid, base, now);
    DistinctCount(photos.Keys, ids);
    assert |p.photos| == |p.photos.Keys|;
  }

  /** The keys after a finished photo loop: the old keys and the fresh ids. */
  lemma AddPhotosKeys(photos: map<Id, Photo>, memoryId: Id, files: seq<Blob>,
                      compress: Compressor, uuid: Uuids, base: nat, now: int)
    requires AddPhotos(photos, memoryId, files, compress, uuid, base, now).ok
    ensures AddPhotos(photos, memoryId, files, compress, uuid, base, now).photos.Keys
      == photos.Keys + (set x | x in FreshIds(uuid, base, |files|))
  {
    var p := AddPhotos(photos, memoryId, files, compress, uuid, base, now);
    AddPhotosIds(photos, memoryId, files, compress, uuid, base, now);
    AddPhotosKeepsRows(photos, memoryId, files, compress, uuid, base, now);
    AddPhotosNewRows(photos, memoryId, files, compress, uuid, base, now);
    AddPhotosNewKeys(photos, memoryId, files, compress, uuid, base, now);
    assert p.added == FreshIds(uuid, base, |files|);
  }

  /** Adding n distinct keys outside a set grows it by n. */
  lemma {:induction false} DistinctCount(keys: set<Id>, ids: seq<Id>)
    requires forall i, j :: 0 <= i < j < |ids| ==> ids[i] != ids[j]
    requires forall i :: 0 <= i < |ids| ==> ids[i] !in keys
    ensures |keys + (set x | x in ids)| == |keys| + |ids|
    decreases |ids|
  {
    if |ids| > 0 {
      var n := |ids| - 1;
      DistinctCount(keys, ids[..n]);
      var before := keys + (set x | x in ids[..n]);
      assert ids[n] !in before by {
        assert ids[n] !in ids[..n];
      }
      assert ids == ids[..n] + [ids[n]];
      Snoc(keys, ids[..n], ids[n]);
    }
  }

  /** The keys and the elements of a list, split before its last element. */
  lemma Snoc(keys: set<Id>, init: seq<Id>, last: Id)
    ensures keys + (set x | x in init + [last]) == (keys + (set x | x in init)) + {last}
  {
  }

  /** Create keeps every row under its own key. */
  lemma CreateKeepsKeyed(t: Tables, date: string, note: string, files: seq<Blob>,
                         compress: Compressor, uuid: Uuids, now: int)
    requires Keyed(t)
    ensures Keyed(CreateEffect(t, date, note, files, compress, uuid, now).tables)
  {
    var memoryId := TargetId(t, date, uuid);
    var p := AddPhotos(t.photos, memoryId, files, compress, uuid, PhotoBase(t, date), now);
    AddPhotosKeepsKeyed(t.photos, memoryId, files, compress, uuid, PhotoBase(t, date), now);
    var e := CreateEffect(t, date, note, files, compress, uuid, now);
    assert e.tables.photos == p.photos;
    if FirstOnDate(t.memories, date).Some? {
      FirstOnDateIsLeast(t.memories, date);
    }
  }

  // ---- update ----

  /** `photoIds.filter(id => !removedPhotoIds.includes(id))`. */
  function Without(ids: seq<Id>, removed: seq<Id>): (r: seq<Id>)
    ensures forall x :: x in r <==> x in ids && x !in removed
    ensures |r| <= |ids|
    decreases |ids|
  {
    if |ids| == 0 then []
    else (if ids[0] in removed then [] else [ids[0]]) + Without(ids[1..], removed)
  }

  /** The filter keeps order: it distributes over concatenation. */
  lemma {:induction false} WithoutAppend(a: seq<Id>, b: seq<Id>, removed: seq<Id>)
    ensures Without(a + b, removed) == Without(a, removed) + Without(b, removed)
    decreases |a|
  {
    if |a| > 0 {
      var head := if a[0] in removed then [] else [a[0]];
      calc {
        Without(a + b, removed);
        { assert (a + b)[0] == a[0]; }
        head + Without((a + b)[1..], removed);
        { assert (a + b)[1..] == a[1..] + b; WithoutAppend(a[1..], b, removed); }
        head + (Without(a[1..], removed) + Without(b, removed));
        (head + Without(a[1..], removed)) + Without(b, removed);
      }
    } else {
      assert a + b == b;
    }
  }

  /** Nothing to remove keeps the list as it was, order included. */
  lemma {:induction false} WithoutNothing(ids: seq<Id>, removed: seq<Id>)
    requires forall i :: 0 <= i < |ids| ==> ids[i] !in removed
    ensures Without(ids, removed) == ids
    decreases |ids|
  {
    if |ids| > 0 {
      WithoutNothing(ids[1..], removed);
      assert [ids[0]] + ids[1..] == ids;
    }
  }

  /** `photos.where('id').anyOf(ids).delete()` on a table value. */
  function DropPhotos(photos: map<Id, Photo>, ids: seq<Id>): (r: map<Id, Photo>)
    ensures r.Keys == photos.Keys - (set x | x in ids)
    ensures forall k :: k in r ==> r[k] == photos[k]
  {
    map k | k in photos && k !in ids :: photos[k]
  }

  /**
   * `updateMemory(id, date, note, newFiles, removedPhotoIds)`: a missing
   * memory fails with nothing written; otherwise the new files are added as
   * in create, the removed ids are deleted from the photo table whoever owns
   * them, and date, note, photo list and update time are overwritten.
   */
  function UpdateEffect(t: Tables, id: Id, date: string, note: string, newFiles: seq<Blob>,
                        removed: seq<Id>, compress: Compressor, uuid: Uuids, now: int): Effect
  {
    if id !in t.memories then Effect(t, false)
    else
      var m := t.memories[id];
      var p := AddPhotos(t.photos, id, newFiles, compress, uuid, 0, now);
      if !p.ok then Effect(Tables(t.memories, p.photos), false)
      else
        var kept := Without(m.photoIds, removed);
        Effect(Tables(t.memories[id := m.(date := date, note := note, photoIds := kept + p.added, updatedAt := now)],
                      DropPhotos(p.photos, removed)), true)
  }

  /** Update of a missing memory fails and leaves both tables as they were. */
  lemma UpdateMissing(t: Tables, id: Id, date: string, note: string, newFiles: seq<Blob>,
                      removed: seq<Id>, compress: Compressor, uuid: Uuids, now: int)
    requires id !in t.memories
    ensures UpdateEffect(t, id, date, note, newFiles, removed, compress, uuid, now) == Effect(t, false)
  {
  }

  /**
   * A completed update keeps the surviving old ids in order, then the new
   * ids in file order; overwrites date and note (an empty note too); keeps
   * the creation time and every other memory.
   */
  lemma UpdateRewritesMemory(t: Tables, id: Id, date: string, note: string, newFiles: seq<Blob>,
                             removed: seq<Id>, compress: Compressor, uuid: Uuids, now: int)
    ensures var e := UpdateEffect(t, id, date, note, newFiles, removed, compress, uuid, now);
      e.ok ==>
        && id in t.memories
        && e.tables.memories.Keys == t.memories.Keys
        && (forall k :: k in t.memories && k != id ==> e.tables.memories[k] == t.memories[k])
        && var before, after := t.memories[id], e.tables.memories[id];
        && after.photoIds == Without(before.photoIds, removed) + FreshIds(uuid, 0, |newFiles|)
        && after.date == date && after.note == note && after.updatedAt == now
        && after.id == before.id && after.createdAt == before.createdAt
  {
    if id in t.memories {
      AddPhotosIds(t.photos, id, newFiles, compress, uuid, 0, now);
    }
  }

  /**
   * A completed update deletes every removed id from the photo table, even
   * a photo another memory owns, adds one photo per new file owned by the
   * memory, and keeps every other photo.
   */
  lemma UpdatePhotoTable(t: Tables, id: Id, date: string, note: string, newFiles: seq<Blob>,
                         removed: seq<Id>, compress: Compressor, uuid: Uuids, now: int)
    ensures var e := UpdateEffect(t, id, date, note, newFiles, removed, compress, uuid, now);
      var ids := FreshIds(uuid, 0, |newFiles|);
      e.ok ==>
        && e.tables.photos.Keys == (t.photos.Keys + (set x | x in ids)) - (set x | x in removed)
        && (forall k :: k in removed ==> k !in e.tables.photos)
        && (forall k :: k in t.photos && k !in removed ==> e.tables.photos[k] == t.photos[k])
        && (forall i :: 0 <= i < |ids| && ids[i] !in removed ==>
              e.tables.photos[ids[i]].memoryId == id && e.tables.photos[ids[i]].createdAt == now)
  {
    var e := UpdateEffect(t, id, date, note, newFiles, removed, compress, uuid, now);
    if e.ok {
      AddPhotosComplete(t.photos, id, newFiles, compress, uuid, 0, now);
    }
  }

  /**
   * A failed update on a stored memory changes no memory, yet photos added
   * before the failure stay and no old photo is lost: there is no rollback.
   */
  lemma UpdateFailureKeepsPartialProgress(t: Tables, id: Id, date: string, note: string, newFiles: seq<Blob>,
                                          removed: seq<Id>, compress: Compressor, uuid: Uuids, now: int)
    ensures var e := UpdateEffect(t, id, date, note, newFiles, removed, compress, uuid, now);
      !e.ok ==>
        && e.tables.memories == t.memories
        && (forall k :: k in t.photos ==> k in e.tables.photos && e.tables.photos[k] == t.photos[k])
        && (id in t.memories ==>
              e.tables.photos == AddPhotos(t.photos, id, newFiles, compress, uuid, 0, now).photos)
  {
    if id in t.memories {
      AddPhotosKeepsRows(t.photos, id, newFiles, compress, uuid, 0, now);
    }
  }

  /** Update keeps every row under its own key. */
  lemma UpdateKeepsKeyed(t: Tables, id: Id, date: string, note: string, newFiles: seq<Blob>,
                         removed: seq<Id>, compress: Compressor, uuid: Uuids, now: int)
    requires Keyed(t)
    ensures Keyed(UpdateEffect(t, id, date, note, newFiles, removed, compress, uuid, now).tables)
  {
    if id in t.memories {
      AddPhotosKeepsKeyed(t.photos, id, newFiles, compress, uuid, 0, now);
    }
  }

  // ---- delete ----

  /** `photos.where('memoryId').equals(id).delete()` on a table value. */
  function DropPhotosOf(photos: map<Id, Photo>, memoryId: Id): map<Id, Photo>
  {
    map k | k in photos && photos[k].memoryId != memoryId :: photos[k]
  }

  /** `deleteMemory(id)`: a missing memory fails; otherwise its photos go first, then the memory. */
  function DeleteEffect(t: Tables, id: Id): Effect
  {
    if id !in t.memories then Effect(t, false)
    else Effect(Tables(t.memories - {id}, DropPhotosOf(t.photos, id)), true)
  }

  /**
   * Delete cascades: afterwards no photo of the memory is left and the
   * memory is gone, while every other memory and every photo of another
   * memory stays as it was; on a missing id nothing changes.
   */
  lemma DeleteCascades(t: Tables, id: Id)
    ensures var e := DeleteEffect(t, id);
      && (e.ok <==> id in t.memories)
      && (!e.ok ==> e.tables == t)
      && (e.ok ==>
            && PhotosOf(e.tables.photos, id) == []
            && e.tables.memories.Keys == t.memories.Keys - {id}
            && (forall k :: k in e.tables.memories ==> e.tables.memories[k] == t.memories[k])
            && (forall other, p :: other != id ==> (p in PhotosOf(e.tables.photos, other) <==> p in PhotosOf(t.photos, other)))
            && (forall k :: k in t.photos && t.photos[k].memoryId != id ==> k in e.tables.photos && e.tables.photos[k] == t.photos[k]))
  {
    var e := DeleteEffect(t, id);
    if e.ok {
      NoPhotosOf(e.tables.photos, id);
      forall other, p | other != id
        ensures p in PhotosOf(e.tables.photos, other) <==> p in PhotosOf(t.photos, other)
      {
        if p in t.photos.Values && p.memoryId == other {
          var k :| k in t.photos && t.photos[k] == p;
          assert e.tables.photos[k] == p;
        }
        if p in e.tables.photos.Values {
          var k :| k in e.tables.photos && e.tables.photos[k] == p;
          assert t.photos[k] == p;
        }
      }
    }
  }

  /** A table where no photo names the memory lists none for it. */
  lemma NoPhotosOf(photos: map<Id, Photo>, memoryId: Id)
    requires forall k :: k in photos ==> photos[k].memoryId != memoryId
    ensures PhotosOf(photos, memoryId) == []
  {
    var rows := Rows(photos);
    forall i | 0 <= i < |rows|
      ensures rows[i].memoryId != memoryId
    {
      var k :| k in photos && photos[k] == rows[i];
    }
    NoneOwnedBy(rows, PhotoOwner, memoryId);
  }

  // ---- export and import ----

  /** A photo as it stands in the export file: the blob replaced by its data URL. */
  datatype ExportedPhoto = ExportedPhoto(id: Id, memoryId: Id, blob: string, mimeType: string, createdAt: int)

  /**
   * The export document after `JSON.parse`; an absent `memories` or
   * `photos` array is `None`.
   */
  datatype ExportDoc = ExportDoc(version: string, exportedAt: int,
                                 memories: Option<seq<Memory>>, photos: Option<seq<ExportedPhoto>>)

  /** `importData.photos || []`. */
  function OrEmpty<T>(rows: Option<seq<T>>): (r: seq<T>)
    ensures rows.None? ==> r == []
  {
    if rows.Some? then rows.value else []
  }

  function ExportPhoto(p: Photo): (e: ExportedPhoto)
    ensures e.id == p.id && e.memoryId == p.memoryId && e.mimeType == p.mimeType && e.createdAt == p.createdAt
    ensures |e.blob| >= 13 && e.blob[..5] == "data:"
  {
    ExportedPhoto(p.id, p.memoryId, ToDataUrl(p.blob), p.mimeType, p.createdAt)
  }

  /** `exportData`: every memory and every photo, the blobs as data URLs, stamped with version "1.0". */
  function Export(t: Tables, now: int): (d: ExportDoc)
    ensures d.version == "1.0" && d.exportedAt == now
    ensures d.memories.Some? && |d.memories.value| == |t.memories|
    ensures d.photos.Some? && |d.photos.value| == |t.photos|
  {
    var photos := Rows(t.photos);
    ExportDoc("1.0", now, Some(Rows(t.memories)),
              Some(seq(|photos|, i requires 0 <= i < |photos| => ExportPhoto(photos[i]))))
  }

  /** `{ ...photo, blob: base64ToBlob(photo.blob) }`, or `None` where the decoder throws. */
  function ImportPhoto(e: ExportedPhoto): (r: Option<Photo>)
    ensures r.Some? ==> r.value.id == e.id && r.value.memoryId == e.memoryId && r.value.createdAt == e.createdAt
  {
    match Decode(e.blob)
    case None => None
    case Some(b) => Some(Photo(e.id, e.memoryId, b, e.mimeType, e.createdAt))
  }

  /** Each element mapped, or `None` when any of them maps to `None`: how `Promise.all` settles. */
  function AllOf<A, B>(xs: seq<A>, f: A -> Option<B>): (r: Option<seq<B>>)
    ensures r.Some? <==> forall i :: 0 <= i < |xs| ==> f(xs[i]).Some?
    ensures r.Some? ==> |r.value| == |xs| && forall i :: 0 <= i < |xs| ==> f(xs[i]) == Some(r.value[i])
    decreases |xs|
  {
    if |xs| == 0 then Some([])
    else
      var n := |xs| - 1;
      var last := f(xs[n]);
      var init := AllOf(xs[..n], f);
      assert forall i :: 0 <= i < n ==> xs[..n][i] == xs[i];
      if init.None? || last.None? then None
      else Some(init.value + [last.value])
  }

  /** Every photo decoded, or `None` when one of them throws (`Promise.all` rejects). */
  function ImportPhotos(es: seq<ExportedPhoto>): (r: Option<seq<Photo>>)
    ensures r.Some? <==> forall i :: 0 <= i < |es| ==> ImportPhoto(es[i]).Some?
    ensures r.Some? ==> |r.value| == |es| && forall i :: 0 <= i < |es| ==> ImportPhoto(es[i]) == Some(r.value[i])
  {
    AllOf(es, ImportPhoto)
  }

  /** The primary key of each table. */
  function PhotoKey(p: Photo): Id
  {
    p.id
  }

  function MemoryKey(m: Memory): Id
  {
    m.id
  }

  /** `bulkAdd(rows)` into a cleared table: a key given twice makes the call, and the transaction, fail. */
  function BulkAdd<R>(rows: seq<R>, key: R -> Id): (r: Option<map<Id, R>>)
    ensures r.Some? ==> forall k :: k in r.value ==> key(r.value[k]) == k
    ensures r.Some? ==> r.value.Keys == set i | 0 <= i < |rows| :: key(rows[i])
    ensures r.Some? ==> forall i :: 0 <= i < |rows| ==> r.value[key(rows[i])] == rows[i]
    decreases |rows|
  {
    if |rows| == 0 then Some(map[])
    else
      var n := |rows| - 1;
      var init := BulkAdd(rows[..n], key);
      if init.None? || key(rows[n]) in init.value then None
      else
        assert forall i :: 0 <= i < n ==> rows[..n][i] == rows[i];
        assert (set i | 0 <= i < |rows| :: key(rows[i])) == (set i | 0 <= i < n :: key(rows[..n][i])) + {key(rows[n])};
        Some(init.value[key(rows[n]) := rows[n]])
  }

  /** Once a prefix hits a duplicate key, the whole bulk add fails. */
  lemma {:induction false} BulkAddHalts<R>(rows: seq<R>, n: nat, key: R -> Id)
    requires n <= |rows| && BulkAdd(rows[..n], key).None?
    ensures BulkAdd(rows, key).None?
    decreases |rows| - n
  {
    if n < |rows| {
      var m := |rows| - 1;
      assert rows[..m][..n] == rows[..n];
      BulkAddHalts(rows[..m], n, key);
    } else {
      assert rows[..n] == rows;
    }
  }

  /** Rows with distinct keys are all added. */
  lemma {:induction false} BulkAddDistinct<R>(rows: seq<R>, key: R -> Id)
    requires forall i, j :: 0 <= i < j < |rows| ==> key(rows[i]) != key(rows[j])
    ensures BulkAdd(rows, key).Some?
    decreases |rows|
  {
    if |rows| > 0 {
      var n := |rows| - 1;
      BulkAddDistinct(rows[..n], key);
      forall i | 0 <= i < n
        ensures key(rows[..n][i]) != key(rows[n])
      {
        assert rows[..n][i] == rows[i];
      }
    }
  }

  /** The rows of a keyed table have distinct keys. */
  lemma RowsDistinctKeys<R>(t: map<Id, R>, key: R -> Id)
    requires forall k :: k in t ==> key(t[k]) == k
    ensures var rows := Rows(t); forall i, j :: 0 <= i < j < |rows| ==> key(rows[i]) != key(rows[j])
  {
    var rows := Rows(t);
    RowsAreKeyOrdered(t, key);
    forall i, j | 0 <= i < j < |rows|
      ensures key(rows[i]) != key(rows[j])
    {
      assert LexLt(key(rows[i]), key(rows[j]));
    }
  }

  /** A table's rows, listed and added back, give the table. */
  lemma BulkAddRows<R>(t: map<Id, R>, key: R -> Id)
    requires forall k :: k in t ==> key(t[k]) == k
    ensures BulkAdd(Rows(t), key) == Some(t)
  {
    var rows := Rows(t);
    RowsDistinctKeys(t, key);
    BulkAddDistinct(rows, key);
    var m := BulkAdd(rows, key).value;
    SameTable(t, rows, key, m);
  }

  /** The table built from a listing of a keyed table is that table. */
  lemma SameTable<R>(t: map<Id, R>, rows: seq<R>, key: R -> Id, m: map<Id, R>)
    requires forall k :: k in t ==> key(t[k]) == k
    requires forall i :: 0 <= i < |rows| ==> rows[i] in t.Values
    requires forall k :: k in t ==> t[k] in rows
    requires m.Keys == set i | 0 <= i < |rows| :: key(rows[i])
    requires forall i :: 0 <= i < |rows| ==> m[key(rows[i])] == rows[i]
    ensures m == t
  {
    forall k | k in t
      ensures k in m && m[k] == t[k]
    {
      var i :| 0 <= i < |rows| && rows[i] == t[k];
      assert key(rows[i]) == k;
    }
    forall k | k in m
      ensures k in t
    {
      var i :| 0 <= i < |rows| && key(rows[i]) == k;
      var j :| j in t && t[j] == rows[i];
    }
  }

  /**
   * `importData`: a document that does not parse fails before anything is
   * touched; otherwise both tables are cleared and refilled inside one
   * transaction, which a decode failure or a duplicate key aborts, leaving
   * the tables as they were.
   */
  function ImportEffect(t: Tables, doc: Option<ExportDoc>): Effect
  {
    if doc.None? then Effect(t, false)
    else
      var photos := ImportPhotos(OrEmpty(doc.value.photos));
      if photos.None? then Effect(t, false)
      else
        var pt := BulkAdd(photos.value, PhotoKey);
        var mt := BulkAdd(OrEmpty(doc.value.memories), MemoryKey);
        if pt.None? || mt.None? then Effect(t, false)
        else Effect(Tables(mt.value, pt.value), true)
  }

  /**
   * Import is all or nothing: a failure leaves the tables as they were; a
   * success replaces them with exactly the imported rows, each under its own
   * key, whatever was stored before, an absent array giving an empty table.
   */
  lemma ImportReplaces(t: Tables, doc: Option<ExportDoc>)
    ensures var e := ImportEffect(t, doc);
      && (!e.ok ==> e.tables == t)
      && (e.ok ==>
            && doc.Some? && Keyed(e.tables)
            && var ms := OrEmpty(doc.value.memories);
            && var ps := OrEmpty(doc.value.photos);
            && (forall m :: m in e.tables.memories.Values <==> m in ms)
            && |e.tables.memories| == |ms| && |e.tables.photos| == |ps|
            && (forall i :: 0 <= i < |ps| ==> ps[i].id in e.tables.photos && ImportPhoto(ps[i]) == Some(e.tables.photos[ps[i].id]))
            && (doc.value.memories.None? ==> e.tables.memories == map[])
            && (doc.value.photos.None? ==> e.tables.photos == map[]))
  {
    var e := ImportEffect(t, doc);
    if e.ok {
      var ms := OrEmpty(doc.value.memories);
      var ps := ImportPhotos(OrEmpty(doc.value.photos)).value;
      forall m
        ensures m in e.tables.memories.Values <==> m in ms
      {
        if m in ms {
          var i :| 0 <= i < |ms| && ms[i] == m;
          assert e.tables.memories[MemoryKey(ms[i])] == m;
        }
        if m in e.tables.memories.Values {
          var k :| k in e.tables.memories && e.tables.memories[k] == m;
          var i :| 0 <= i < |ms| && MemoryKey(ms[i]) == k;
        }
      }
      BulkAddSize(ms, MemoryKey);
      BulkAddSize(ps, PhotoKey);
    }
  }

  /** Import keeps every row under its own key. */
  lemma ImportKeepsKeyed(t: Tables, doc: Option<ExportDoc>)
    requires Keyed(t)
    ensures Keyed(ImportEffect(t, doc).tables)
  {
  }

  /** A successful bulk add stores one row per input row. */
  lemma BulkAddSize<R>(rows: seq<R>, key: R -> Id)
    requires BulkAdd(rows, key).Some?
    ensures |BulkAdd(rows, key).value| == |rows|
    decreases |rows|
  {
    if |rows| > 0 {
      var n := |rows| - 1;
      BulkAddSize(rows[..n], key);
    }
  }

  /** Photos whose blob type a data URL carries through unchanged. */
  predicate PortableBlobs(photos: map<Id, Photo>)
  {
    forall k :: k in photos ==> RoundTrips(photos[k].blob.mime)
  }

  /** Decoding the exported photos gives back the stored rows. */
  lemma ImportExportedPhotos(rows: seq<Photo>)
    requires forall i :: 0 <= i < |rows| ==> RoundTrips(rows[i].blob.mime)
    ensures ImportPhotos(seq(|rows|, i requires 0 <= i < |rows| => ExportPhoto(rows[i]))) == Some(rows)
  {
    var es := seq(|rows|, i requires 0 <= i < |rows| => ExportPhoto(rows[i]));
    forall i | 0 <= i < |rows|
      ensures ImportPhoto(es[i]) == Some(rows[i])
    {
      DecodeToDataUrl(rows[i].blob);
    }
    var r := ImportPhotos(es);
    assert r.Some?;
    assert r.value == rows;
  }

  /**
   * Importing an export reproduces the store exactly, whatever the store
   * held before the import: same ids, dates, notes, photo lists, times,
   * owners and blob bytes.
   */
  lemma ImportExportRoundTrip(t: Tables, before: Tables, now: int)
    requires Keyed(t) && PortableBlobs(t.photos)
    ensures ImportEffect(before, Some(Export(t, now))) == Effect(t, true)
  {
    var d := Export(t, now);
    ExportedPhotosDecode(t, now);
    BulkAddRows(t.photos, PhotoKey);
    BulkAddRows(t.memories, MemoryKey);
    assert OrEmpty(d.memories) == Rows(t.memories);
  }

  /** The photos of an export decode back to the stored rows, in listing order. */
  lemma ExportedPhotosDecode(t: Tables, now: int)
    requires PortableBlobs(t.photos)
    ensures ImportPhotos(OrEmpty(Export(t, now).photos)) == Some(Rows(t.photos))
  {
    var rows := Rows(t.photos);
    forall i | 0 <= i < |rows|
      ensures RoundTrips(rows[i].blob.mime)
    {
      var k :| k in t.photos && t.photos[k] == rows[i];
    }
    ImportExportedPhotos(rows);
  }
}

/**
 * The browser-side store `momentDB`: two IndexedDB object stores behind
 * Dexie, `memories` and `photos`, each keyed by its `id` field.
 */
module LocalDb {
  import opened Wrappers
  import opened Blobs
  import opened Strings
  import opened Sorting
  import opened Listing

  type Id = string

  /** A stored photo; `memoryId` names the one memory that owns it. */
  datatype Photo = Photo(id: Id, memoryId: Id, blob: Blob, mimeType: string, createdAt: int)

  /** One day's memory: the date as "YYYY-MM-DD", a note and its photos in display order. */
  datatype Memory = Memory(id: Id, date: string, note: string, photoIds: seq<Id>, createdAt: int, updatedAt: int)

  /** The contents of both object stores. */
  datatype Tables = Tables(memories: map<Id, Memory>, photos: map<Id, Photo>)

  predicate MemoriesKeyed(m: map<Id, Memory>)
  {
    forall k :: k in m ==> m[k].id == k
  }

  predicate PhotosKeyed(p: map<Id, Photo>)
  {
    forall k :: k in p ==> p[k].id == k
  }

  /** Every row is stored under its own primary key. */
  predicate Keyed(t: Tables)
  {
    MemoriesKeyed(t.memories) && PhotosKeyed(t.photos)
  }

  // ---- schema ----

  /**
   * A Dexie store declaration such as "id, date": the primary key, then the
   * secondary indexes, here kept as the names Dexie reads from the string.
   */
  datatype StoreSpec = StoreSpec(primaryKey: string, indexes: seq<string>)

  /** `version(1).stores(...)`. */
  const Version1: map<string, StoreSpec> :=
    map["memories" := StoreSpec("id", ["date", "createdAt", "updatedAt"]),
        "photos" := StoreSpec("id", ["memoryId", "createdAt"])]

  /** `version(2).stores(...)`: only the photos store is declared again. */
  const Version2: map<string, StoreSpec> :=
    map["photos" := StoreSpec("id", ["memoryId", "createdAt"])]

  /** The schema after a run of versions: a store a version does not mention keeps its previous declaration. */
  function Schema(versions: seq<map<string, StoreSpec>>): (s: map<string, StoreSpec>)
    ensures forall v :: 0 <= v < |versions| ==> versions[v].Keys <= s.Keys
    ensures |versions| > 0 ==> forall name :: name in versions[|versions| - 1] ==> s[name] == versions[|versions| - 1][name]
    decreases |versions|
  {
    if |versions| == 0 then map[]
    else Schema(versions[..|versions| - 1]) + versions[|versions| - 1]
  }

  /** An upgrade keeps every row when every store survives with the same primary key. */
  predicate KeepsRows(before: map<string, StoreSpec>, after: map<string, StoreSpec>)
  {
    forall name :: name in before ==> name in after && after[name].primaryKey == before[name].primaryKey
  }

  /**
   * Upgrading to version 2 changes nothing: the memories store carries over
   * and photos is redeclared as it was, so no row is dropped.
   */
  lemma Version2KeepsSchema()
    ensures Schema([Version1, Version2]) == Version1
    ensures KeepsRows(Version1, Schema([Version1, Version2]))
  {
    assert [Version1, Version2][..1] == [Version1];
    assert [Version1][..0] == [];
    assert Schema([Version1]) == map[] + Version1;
    assert map[] + Version1 == Version1;
    assert Schema([Version1, Version2]) == Version1 + Version2;
    assert Version1 + Version2 == Version1;
  }

  /** Both stores are keyed by `id`; photos are indexed by their owner `memoryId`. */
  lemma StoresKeyedById()
    ensures var s := Schema([Version1, Version2]);
      && s["memories"].primaryKey == "id" && s["photos"].primaryKey == "id"
      && "date" in s["memories"].indexes && "memoryId" in s["photos"].indexes
  {
    Version2KeepsSchema();
    assert Version1["memories"].indexes[0] == "date";
    assert Version1["photos"].indexes[0] == "memoryId";
  }

  // ---- queries ----

  /** The order of `orderBy('date').reverse()`: later dates first, equal dates by descending key. */
  predicate NewerFirst(a: Memory, b: Memory)
  {
    LexLt(b.date, a.date) || (a.date == b.date && LexLe(b.id, a.id))
  }

  lemma NewerFirstIsTotalPreorder()
    ensures TotalPreorder(NewerFirst)
  {
    forall a: Memory, b: Memory
      ensures NewerFirst(a, b) || NewerFirst(b, a)
    {
      LexLeTotal(a.date, b.date);
      LexLeTotal(a.id, b.id);
    }
    forall a: Memory, b: Memory, c: Memory | NewerFirst(a, b) && NewerFirst(b, c)
      ensures NewerFirst(a, c)
    {
      NewerFirstTransitive(a, b, c);
    }
  }

  lemma NewerFirstTransitive(a: Memory, b: Memory, c: Memory)
    requires NewerFirst(a, b) && NewerFirst(b, c)
    ensures NewerFirst(a, c)
  {
    if a.date == b.date {
      if b.date == c.date {
        LexLeTransitive(c.id, b.id, a.id);
      }
    } else if b.date != c.date {
      LexLeTransitive(c.date, b.date, a.date);
      if c.date == a.date {
        LexLeAntisymmetric(a.date, b.date);
      }
    }
  }

  /** `db.memories.orderBy('date').reverse().toArray()`. */
  function NewestFirst(t: map<Id, Memory>): (r: seq<Memory>)
    ensures |r| == |t|
    ensures multiset(r) == multiset(Rows(t))
    ensures SortedBy(r, NewerFirst)
  {
    NewerFirstIsTotalPreorder();
    SortBy(Rows(t), NewerFirst)
  }

  /** The loaded list runs from the latest date to the earliest; equal dates by descending key. */
  lemma NewestFirstOrder(t: map<Id, Memory>)
    ensures var r := NewestFirst(t);
      && (forall i, j :: 0 <= i < j < |r| ==> LexLe(r[j].date, r[i].date))
      && (forall i, j :: 0 <= i < j < |r| && r[i].date == r[j].date ==> LexLe(r[j].id, r[i].id))
  {
    var r := NewestFirst(t);
    forall i, j | 0 <= i < j < |r|
      ensures LexLe(r[j].date, r[i].date)
    {
      assert NewerFirst(r[i], r[j]);
      if r[j].date == r[i].date {
        LexLeReflexive(r[j].date);
      }
    }
  }

  /** A memory is listed exactly when it is stored. */
  lemma NewestFirstListsAll(t: map<Id, Memory>, m: Memory)
    ensures m in NewestFirst(t) <==> m in t.Values
  {
    var r := NewestFirst(t);
    assert m in r <==> m in multiset(r);
    assert m in Rows(t) <==> m in multiset(Rows(t));
    if m in t.Values {
      var k :| k in t && t[k] == m;
    }
  }

  /**
   * The rows owned by `memoryId`, in the order given: the filter of the
   * local `memoryId` index and of the cloud `memory_id` query alike.
   */
  function OwnedBy<T(==,!new)>(rows: seq<T>, owner: T -> Id, memoryId: Id): (r: seq<T>)
    ensures forall p :: p in r <==> p in rows && owner(p) == memoryId
    ensures |r| <= |rows|
  {
    if |rows| == 0 then []
    else (if owner(rows[0]) == memoryId then [rows[0]] else []) + OwnedBy(rows[1..], owner, memoryId)
  }

  /** Rows none of which the memory owns filter to nothing. */
  lemma {:induction false} NoneOwnedBy<T(!new)>(rows: seq<T>, owner: T -> Id, memoryId: Id)
    requires forall i :: 0 <= i < |rows| ==> owner(rows[i]) != memoryId
    ensures OwnedBy(rows, owner, memoryId) == []
    decreases |rows|
  {
    if |rows| > 0 {
      NoneOwnedBy(rows[1..], owner, memoryId);
    }
  }

  function PhotoOwner(p: Photo): Id
  {
    p.memoryId
  }

  /** `db.photos.where('memoryId').equals(memoryId).toArray()`: the memory's photos in key order. */
  function PhotosOf(t: map<Id, Photo>, memoryId: Id): (r: seq<Photo>)
    ensures forall p :: p in r <==> p in t.Values && p.memoryId == memoryId
  {
    var rows := Rows(t);
    assert forall p :: p in rows <==> p in t.Values by {
      forall p | p in t.Values
        ensures p in rows
      {
        var k :| k in t && t[k] == p;
      }
    }
    OwnedBy(rows, PhotoOwner, memoryId)
  }

  /** The first key of an ascending key list whose memory has the date. */
  function FirstKeyOn(keys: seq<Id>, t: map<Id, Memory>, date: string): (r: Option<Id>)
    requires forall i :: 0 <= i < |keys| ==> keys[i] in t
    ensures r.Some? ==> r.value in keys && t[r.value].date == date
    ensures r.Some? && StrictlyAscending(keys) ==> forall i :: 0 <= i < |keys| && t[keys[i]].date == date ==> LexLe(r.value, keys[i])
    ensures r.None? <==> forall i :: 0 <= i < |keys| ==> t[keys[i]].date != date
  {
    if |keys| == 0 then None
    else if t[keys[0]].date == date then
      LexLeReflexive(keys[0]);
      Some(keys[0])
    else
      var r := FirstKeyOn(keys[1..], t, date);
      assert forall i :: 1 <= i < |keys| ==> keys[i] == keys[1..][i - 1];
      r
  }

  /** Over all stored keys, the first key on the date is the least such key. */
  lemma FirstKeyOnAllKeys(t: map<Id, Memory>, date: string)
    ensures var k := FirstKeyOn(SortedKeys(t.Keys), t, date);
      && (k.None? ==> forall j :: j in t ==> t[j].date != date)
      && (k.Some? ==> k.value in t && forall j :: j in t && t[j].date == date ==> LexLe(k.value, j))
  {
    var keys := SortedKeys(t.Keys);
    SortedKeysAscending(t.Keys);
    var k := FirstKeyOn(keys, t, date);
    forall j | j in t
      ensures k.None? ==> t[j].date != date
      ensures k.Some? && t[j].date == date ==> LexLe(k.value, j)
    {
      var i :| 0 <= i < |keys| && keys[i] == j;
    }
  }

  /** `db.memories.where('date').equals(date).first()`: of the memories on that date, the one under the least key. */
  function FirstOnDate(t: map<Id, Memory>, date: string): (r: Option<Memory>)
    ensures r.Some? ==> r.value in t.Values && r.value.date == date
    ensures r.None? <==> forall k :: k in t ==> t[k].date != date
  {
    var k := FirstKeyOn(SortedKeys(t.Keys), t, date);
    FirstKeyOnAllKeys(t, date);
    if k.Some? then Some(t[k.value]) else None
  }

  /** In a keyed table, the memory found is stored under its id, the least key among the memories on the date. */
  lemma FirstOnDateIsLeast(t: map<Id, Memory>, date: string)
    requires MemoriesKeyed(t) && FirstOnDate(t, date).Some?
    ensures var r := FirstOnDate(t, date).value;
      r.id in t && t[r.id] == r && forall k :: k in t && t[k].date == date ==> LexLe(r.id, k)
  {
    var k := FirstKeyOn(SortedKeys(t.Keys), t, date);
    FirstKeyOnAllKeys(t, date);
  }

  /** The changes object of `memories.update`: the fields it names, the others left out. */
  datatype MemoryChanges = MemoryChanges(date: Option<string>, note: Option<string>,
                                         photoIds: Option<seq<Id>>, updatedAt: Option<int>)

  function Or<T>(v: Option<T>, otherwise: T): (r: T)
    ensures v.Some? ==> r == v.value
    ensures v.None? ==> r == otherwise
  {
    if v.Some? then v.value else otherwise
  }

  /** A row with the named fields replaced; the key and `createdAt` are never among them. */
  function Apply(m: Memory, c: MemoryChanges): (r: Memory)
    ensures r.id == m.id && r.createdAt == m.createdAt
  {
    m.(date := Or(c.date, m.date), note := Or(c.note, m.note),
       photoIds := Or(c.photoIds, m.photoIds), updatedAt := Or(c.updatedAt, m.updatedAt))
  }

  // ---- the store ----

  /** The Dexie database instance: both tables, changed in place. */
  class MomentDB {
    var memories: map<Id, Memory>
    var photos: map<Id, Photo>

    function State(): Tables
      reads this
    {
      Tables(memories, photos)
    }

    /** `new MomentDB()`: both stores empty. */
    constructor()
      ensures memories == map[] && photos == map[]
    {
      memories := map[];
      photos := map[];
    }

    /** `photos.add(p)`: refused with a constraint error when the key is taken. */
    method AddPhoto(p: Photo) returns (ok: bool)
      modifies this`photos
      ensures ok <==> p.id !in old(photos)
      ensures photos == if ok then old(photos)[p.id := p] else old(photos)
    {
      if p.id in photos {
        return false;
      }
      photos := photos[p.id := p];
      return true;
    }

    /** `memories.add(m)`: refused with a constraint error when the key is taken. */
    method AddMemory(m: Memory) returns (ok: bool)
      modifies this`memories
      ensures ok <==> m.id !in old(memories)
      ensures memories == if ok then old(memories)[m.id := m] else old(memories)
    {
      if m.id in memories {
        return false;
      }
      memories := memories[m.id := m];
      return true;
    }

    /** `memories.update(id, changes)`: applies the changes to a stored row; a missing key updates nothing. */
    method UpdateMemory(id: Id, change: MemoryChanges) returns (updated: nat)
      modifies this`memories
      ensures updated == (if id in old(memories) then 1 else 0)
      ensures memories == if id in old(memories) then old(memories)[id := Apply(old(memories)[id], change)] else old(memories)
    {
      if id in memories {
        memories := memories[id := Apply(memories[id], change)];
        return 1;
      }
      return 0;
    }

    /** `memories.delete(id)`. */
    method DeleteMemory(id: Id)
      modifies this`memories
      ensures memories == old(memories) - {id}
    {
      memories := memories - {id};
    }

    /** `photos.where('memoryId').equals(memoryId).delete()`. */
    method DeletePhotosOf(memoryId: Id)
      modifies this`photos
      ensures photos == map k | k in old(photos) && old(photos)[k].memoryId != memoryId :: old(photos)[k]
    {
      photos := map k | k in photos && photos[k].memoryId != memoryId :: photos[k];
    }

    /** `photos.where('id').anyOf(ids).delete()`. */
    method DeletePhotosAnyOf(ids: seq<Id>)
      modifies this`photos
      ensures photos == map k | k in old(photos) && k !in ids :: old(photos)[k]
    {
      photos := map k | k in photos && k !in ids :: photos[k];
    }

    /** `memories.clear()` and `photos.clear()`. */
    method Clear()
      modifies this
      ensures memories == map[] && photos == map[]
    {
      memories := map[];
      photos := map[];
    }

    /** Puts back a snapshot: what an aborted transaction does. */
    method Restore(t: Tables)
      modifies this
      ensures State() == t
    {
      memories := t.memories;
      photos := t.photos;
    }
  }
}

# Moment-Sharing, modelled in Dafny

Moment-Sharing is a browser photo diary. A *memory* is one dated entry
(a `YYYY-MM-DD` date, a note, an ordered list of photo ids, creation and
update times); a *photo* is a stored image blob owned by one memory. The
app keeps both in an IndexedDB database (`momentDB`, through Dexie) and can
move them to a cloud backend (a `memories` table, a `photos` table and a
`photos` storage bucket). Around the data sit the page's dialogs: the
editor that adds photos to a memory, the timeline that shows each
memory's photos through object URLs, the year/month sidebar, the
full-screen viewer, the password dialog and the share-range dialog.

This project models the logic of those parts and proves what it promises:

- **The local store** (`LocalDb`, `Listing`): the two tables as maps keyed
  by `id`, the Dexie schema and its version-2 upgrade, the orders the
  queries return (`orderBy('date').reverse()`, `where(...).equals(...)`,
  `first()`), and the store as a class whose methods update the tables.
- **The memory hook** (`MemoryOps`, `MemoryHook`): create, update and
  delete of a memory with their photo loops, export to a JSON document
  with data-URL blobs, and import inside a transaction. `MemoryOps` states
  each operation as a function of the tables before the call; the hook's
  methods run the loops and are proved to match them. Create merges into
  a memory already on the same date. Failures part-way are not rolled
  back, except inside import's transaction. Importing an export gives
  back the exact store whenever every photo's type is non-empty and holds
  no ';' and no ','; an untyped photo comes back typed `image/jpeg`.
- **Blobs as text** (`Base64`, `DataUrl`, `Strings`): the RFC 4648 Base64
  encoder that `FileReader.readAsDataURL` uses, `atob` as the WHATWG
  forgiving-base64 decoder, `base64ToBlob`, and the JavaScript string
  operations they rest on (`split`, `trim`, `length` in UTF-16 code units,
  and the UTF-16 code-unit order of `<` and of IndexedDB keys).
- **The cloud service** (`RemoteStore`) and **the migration**
  (`Migration`): the row mapping of `dataService`, its read-modify-write
  sequences with every server answer as an input, and the loops of
  `migrateToSupabase` and its helpers.
- **Image compression** (`ImageCompression`), with the compression library
  as an input.
- **The components**: the page handlers (`App`), object URLs (`ObjectUrls`,
  `Timeline`, `EditorModal`), the viewer's wrap-around (`ImageViewer`), the
  sidebar's grouping and nearest-month jump (`TimelineSidebar`), password
  checks (`PasswordModal`), and the share-range validation
  (`ShareSettings`, with dates in `Dates`).

Randomness (`crypto.randomUUID`, `Math.random`), the clock, the compressor,
the browser's answers and the server's answers are parameters of the
operations that use them.

## Model

| member | source | states |
|---|---|---|
| Strings.UnitRankIsUtf16Order | src/hooks/useMemories.ts:49 | Characters compare by rank exactly as their UTF-16 encodings compare, surrogate pairs included. |
| Strings.LexLeReflexive | src/hooks/useMemories.ts:49 | The string order Dexie sorts keys and dates by is reflexive. |
| Strings.LexLeTotal | src/hooks/useMemories.ts:49 | Any two strings compare one way or the other. |
| Strings.LexLeAntisymmetric | src/hooks/useMemories.ts:49 | Two strings each at most the other are equal. |
| Strings.LexLeTransitive | src/hooks/useMemories.ts:49 | The string order is transitive. |
| Strings.Split | src/hooks/useMemories.ts:29 | `split` with a one-character separator always yields at least one piece. |
| Strings.SplitNoSeparator | src/hooks/useMemories.ts:29 | A string without the separator splits into itself alone. |
| Strings.SplitAt | src/hooks/useMemories.ts:29 | Text before a first separator is the first piece; the rest splits on its own. |
| Strings.SplitPiecesFree | src/hooks/useMemories.ts:29 | No piece contains the separator. |
| Strings.SplitLastIsSuffix | src/services/dataService.ts:337 | The last piece (what `pop()` returns) is a suffix of the string, and the whole string when there is one piece. |
| Strings.TrimStart | src/components/PasswordModal.tsx:54 | `trimStart` returns a suffix that starts with a non-white-space character, or nothing. |
| Strings.TrimEnd | src/components/PasswordModal.tsx:54 | `trimEnd` returns a prefix that ends with a non-white-space character, or nothing. |
| Strings.TrimStartEmptyIff | src/components/PasswordModal.tsx:54 | `trimStart` leaves nothing exactly when every character is white space. |
| Strings.TrimEmptyIffBlank | src/components/PasswordModal.tsx:54 | `!s.trim()` holds exactly when the string is empty or all white space. |
| Strings.Utf16Length | src/components/PasswordModal.tsx:82 | `length` counts between one and two code units per character. |
| Sorting.Insert | src/components/TimelineSidebar.tsx:42 | Inserting into a sorted list keeps it sorted and adds exactly the element. |
| Sorting.SortBy | src/components/TimelineSidebar.tsx:39-45 | `sort` with a total preorder returns a sorted permutation of its input. |
| Sorting.SortByKeepsElements | src/components/TimelineSidebar.tsx:39-45 | Sorting neither adds nor drops an element. |
| Dates.BeforeIsStrictOrder | src/components/ShareSettingsModal.tsx:53-61 | The date comparison is irreflexive, transitive and total on days. |
| Dates.DigitChar | src/components/EditorModal.tsx:34-35 | A digit character stands for its value. |
| Dates.Decimal | src/components/EditorModal.tsx:33-36 | `String(n)` is a non-empty run of decimal digits. |
| Dates.DecimalValue | src/components/EditorModal.tsx:33-36 | `String(n)` reads back as n, and has as many digits as n needs. |
| Dates.Parse | src/components/ShareSettingsModal.tsx:48-49 | A parsed `YYYY-MM-DD` date has a month in 1..12, a day in 1..31 and a year of at most four digits. |
| Dates.Pad2Value | src/components/EditorModal.tsx:34-35 | `padStart(2, '0')` of a day or month gives two digits that read back as the number. |
| Dates.ParseFormat | src/components/EditorModal.tsx:31-37 | The editor's default date is ten characters and parses back to the same day. |
| ObjectUrls.Registry.constructor | src/components/Timeline.tsx:47 | The browser starts with no object URL minted or live. |
| ObjectUrls.Registry.Create | src/components/Timeline.tsx:47 | `createObjectURL` hands out a token never seen before and makes it live. |
| ObjectUrls.Registry.Revoke | src/components/Timeline.tsx:42 | `revokeObjectURL` ends exactly that token; a public URL changes nothing. |
| Base64.ValueOfCharOf | src/hooks/useMemories.ts:23 | Decoding a Base64 character gives back the 6-bit value it encodes. |
| Base64.CharOfValueOf | src/hooks/useMemories.ts:31 | Every alphabet character is the encoding of its value: the alphabet is a bijection. |
| Base64.Group | src/hooks/useMemories.ts:23 | Three bytes become four alphabet characters. |
| Base64.Tail1 | src/hooks/useMemories.ts:23 | A final single byte becomes two alphabet characters before padding. |
| Base64.Tail2 | src/hooks/useMemories.ts:23 | A final pair of bytes becomes three alphabet characters before padding. |
| Base64.GroupRoundTrip | src/hooks/useMemories.ts:23 | A full group decodes back to its three bytes. |
| Base64.Tail1RoundTrip | src/hooks/useMemories.ts:23 | A final single byte decodes back from its two characters. |
| Base64.Tail2RoundTrip | src/hooks/useMemories.ts:23 | A final pair of bytes decodes back from its three characters. |
| Base64.EncodeUnpadded | src/hooks/useMemories.ts:23 | The unpadded text uses only the alphabet and its length mod 4 follows the byte count mod 3. |
| Base64.Encode | src/hooks/useMemories.ts:23 | The padded encoding has a length divisible by four and holds only alphabet characters and '='. |
| Base64.DecodeEncodeUnpadded | src/hooks/useMemories.ts:23 | Decoding the unpadded encoding of any byte sequence gives the bytes back. |
| Base64.RemoveWhitespace | src/hooks/useMemories.ts:31 | `atob`'s first step leaves no ASCII white space and never lengthens the text. |
| Base64.StripPaddingOfEncode | src/hooks/useMemories.ts:31 | Removing the final padding of an encoding gives its unpadded form. |
| Base64.BinaryString | src/hooks/useMemories.ts:35 | A binary string has one character per byte, each with the byte's code. |
| Base64.Atob | src/hooks/useMemories.ts:31 | `atob` throws exactly when the cleaned text leaves one character over or holds a non-alphabet character; otherwise every character it returns is below 256. |
| Base64.AtobEncode | src/hooks/useMemories.ts:31 | `atob` inverts the encoder on every byte sequence. |
| Base64.AtobUndefined | src/hooks/useMemories.ts:31 | The text "undefined", what `atob` gets when there is no comma, is rejected. |
| DataUrl.AsciiLower | src/hooks/useMemories.ts:37 | Lower-casing keeps printable ASCII printable and leaves no upper-case letter. |
| DataUrl.BlobType | src/hooks/useMemories.ts:37 | The Blob constructor's type is empty or as long as the given one, printable ASCII with no upper-case letter. |
| DataUrl.BlobTypeFixedPoints | src/hooks/useMemories.ts:37 | The types a Blob can carry are exactly those the constructor leaves unchanged. |
| DataUrl.BlobTypeIdempotent | src/hooks/useMemories.ts:37 | Normalising a type twice is normalising it once. |
| DataUrl.ToDataUrl | src/hooks/useMemories.ts:18-25 | `readAsDataURL` text starts with "data:". |
| DataUrl.LazyEnd | src/hooks/useMemories.ts:30 | The lazy `.*?;` stops at the first ';' with no line terminator before it. |
| DataUrl.MatchFrom | src/hooks/useMemories.ts:30 | The captured type of `/:(.*?);/` holds no ';' and no line terminator. |
| DataUrl.MimeOf | src/hooks/useMemories.ts:30 | The MIME type read from the header is never empty: it falls back to JPEG. |
| DataUrl.BytesOf | src/hooks/useMemories.ts:32-36 | The byte array holds each character's code at its own position. |
| DataUrl.Decode | src/hooks/useMemories.ts:28-38 | A decoded blob has a non-empty type unless the Blob constructor cleared it. |
| DataUrl.Base64ToBlob | src/hooks/useMemories.ts:28-38 | The `while (n--)` loop filling the array from the end computes `Decode`. |
| DataUrl.BytesOfBinaryString | src/hooks/useMemories.ts:32-36 | Reading a binary string back gives the bytes it was made from. |
| DataUrl.LazyEndSkips | src/hooks/useMemories.ts:30 | The lazy match ends at the first ';' when nothing before it stops it. |
| DataUrl.MimeOfHeader | src/hooks/useMemories.ts:30 | The header the encoder writes captures the blob's own type. |
| DataUrl.NoCommaInEncoding | src/hooks/useMemories.ts:29 | Base64 text holds no ',', so the split on ',' finds only the header's comma. |
| DataUrl.SplitDataUrl | src/hooks/useMemories.ts:29 | A data URL splits into exactly its header and its Base64 text. |
| DataUrl.DecodeToDataUrl | src/hooks/useMemories.ts:18-38 | Decoding the data URL of a blob gives the same blob back whenever its type survives the header. |
| DataUrl.DecodeUntyped | src/hooks/useMemories.ts:30 | A blob without a type comes back typed `image/jpeg`, with the same bytes. |
| DataUrl.FallbackIsBlobType | src/hooks/useMemories.ts:30 | The fallback type is one a Blob keeps unchanged. |
| DataUrl.DecodeWithoutComma | src/hooks/useMemories.ts:29-31 | Text with no ',' makes the decoder throw. |
| LocalDb.Schema | src/db/db.ts:30-38 | Every store a version declares is in the schema, with the latest declaration. |
| LocalDb.Version2KeepsSchema | src/db/db.ts:36-38 | Version 2 redeclares photos as version 1 had it: the schema and every row survive the upgrade. |
| LocalDb.StoresKeyedById | src/db/db.ts:30-33 | Both stores are keyed by `id`; memories are indexed by `date`, photos by `memoryId`. |
| LocalDb.NewerFirstIsTotalPreorder | src/hooks/useMemories.ts:49 | The reversed date order compares any two memories and is transitive. |
| LocalDb.NewerFirstTransitive | src/hooks/useMemories.ts:49 | Later-date-first, then larger-key-first, is transitive. |
| LocalDb.NewestFirst | src/hooks/useMemories.ts:49 | The loaded list is a permutation of the stored memories, sorted later date first. |
| LocalDb.NewestFirstOrder | src/hooks/useMemories.ts:49 | Dates never increase along the list; on equal dates keys never increase. |
| LocalDb.NewestFirstListsAll | src/hooks/useMemories.ts:49 | A memory is listed exactly when it is stored. |
| LocalDb.OwnedBy | src/hooks/useMemories.ts:236 | Filtering rows by owner keeps exactly the rows of that memory, never more rows than given; the cloud query `eq('memory_id', id)` applies the same filter. |
| LocalDb.PhotosOf | src/hooks/useMemories.ts:236 | The photos read for a memory are exactly its stored photos. |
| LocalDb.FirstKeyOn | src/hooks/useMemories.ts:87 | The first key on the date is a key of a memory on that date and, on ascending keys, the least; none exactly when no memory has that date. |
| LocalDb.FirstKeyOnAllKeys | src/hooks/useMemories.ts:87 | Over all stored keys the lookup finds the least key on the date, or says no memory has it. |
| LocalDb.FirstOnDate | src/hooks/useMemories.ts:87 | `first()` returns a stored memory on the date, and nothing exactly when none has it. |
| LocalDb.FirstOnDateIsLeast | src/hooks/useMemories.ts:87 | The memory found is stored under its id, the least key among the memories on the date. |
| LocalDb.Or | src/hooks/useMemories.ts:122-126 | A change given replaces the field; an absent one keeps it. |
| LocalDb.Apply | src/hooks/useMemories.ts:122-126 | `update` never changes a row's key or its creation time. |
| LocalDb.MomentDB.constructor | src/db/db.ts:26-39 | A new database has both stores empty. |
| LocalDb.MomentDB.AddPhoto | src/hooks/useMemories.ts:106-112 | `photos.add` stores the row when its key is free and fails, changing nothing, when it is taken. |
| LocalDb.MomentDB.AddMemory | src/hooks/useMemories.ts:129-136 | `memories.add` stores the row when its key is free and fails, changing nothing, when it is taken. |
| LocalDb.MomentDB.UpdateMemory | src/hooks/useMemories.ts:122-126 | `update` applies the changes to a stored row and reports 1; a missing key reports 0 and changes nothing. |
| LocalDb.MomentDB.DeleteMemory | src/hooks/useMemories.ts:219 | `memories.delete` removes exactly that key. |
| LocalDb.MomentDB.DeletePhotosOf | src/hooks/useMemories.ts:216 | Deleting by owner removes exactly the memory's photos. |
| LocalDb.MomentDB.DeletePhotosAnyOf | src/hooks/useMemories.ts:185 | Deleting `anyOf(ids)` removes exactly the listed keys. |
| LocalDb.MomentDB.Clear | src/hooks/useMemories.ts:309-310 | Both tables are emptied. |
| LocalDb.MomentDB.Restore | src/hooks/useMemories.ts:307-328 | An aborted transaction leaves the tables as they were when it began. |
| Listing.LeastExists | src/hooks/useMemories.ts:258-259 | Every non-empty set of keys has a least key. |
| Listing.LeastUnique | src/hooks/useMemories.ts:258-259 | A set of keys has only one least key. |
| Listing.SortedKeys | src/hooks/useMemories.ts:258-259 | The key listing has each stored key once. |
| Listing.SortedKeysAscending | src/hooks/useMemories.ts:258-259 | The keys are listed in strictly ascending order. |
| Listing.Rows | src/hooks/useMemories.ts:258-259 | `toArray()` lists every row of the table once and nothing else. |
| Listing.RowsAreKeyOrdered | src/hooks/useMemories.ts:258-259 | `toArray()` lists rows in strictly ascending primary-key order. |
| MemoryOps.PhotoRow | src/hooks/useMemories.ts:106-112 | The added row has the fresh id, the owner, the compressed bytes and type, and the call's time. |
| MemoryOps.FreshIds | src/hooks/useMemories.ts:104 | The ids drawn are the oracle's answers in call order. |
| MemoryOps.AddPhotos | src/hooks/useMemories.ts:102-115 | The photo loop pushes at most one id per file. |
| MemoryOps.AddPhotosNext | src/hooks/useMemories.ts:102-115 | One more file: compressed and added under the next id, or the loop stops on a failed compression or a taken key. |
| MemoryOps.AddPhotosIds | src/hooks/useMemories.ts:104-114 | The pushed ids are the first fresh ids in file order, one per file when the loop finishes. |
| MemoryOps.AddPhotosKeepsRows | src/hooks/useMemories.ts:102-115 | The loop never drops or changes a row already stored, even when it fails. |
| MemoryOps.AddPhotosNewKeys | src/hooks/useMemories.ts:102-115 | Every key after the loop was there before or is a pushed id. |
| MemoryOps.AddPhotosHalts | src/hooks/useMemories.ts:102-115 | Once the loop has failed, later files change nothing. |
| MemoryOps.AddPhotosNewRows | src/hooks/useMemories.ts:102-115 | Each pushed id is new to the table and holds its file, compressed, owned by the memory. |
| MemoryOps.AddPhotosKeepsKeyed | src/hooks/useMemories.ts:106-112 | Every added row is stored under its own id. |
| MemoryOps.FeasibleExtend | src/hooks/useMemories.ts:102-115 | A list of files can be stored exactly when its prefix can and the last file compresses under a new, unused id. |
| MemoryOps.AddPhotosSucceeds | src/hooks/useMemories.ts:102-115 | The loop finishes exactly when every file compresses and the fresh ids are new and distinct. |
| MemoryOps.AddPhotosStep | src/hooks/useMemories.ts:102-115 | The loop goes on after one more file exactly when it was running, the file compresses and its id is free. |
| MemoryOps.MergedNote | src/hooks/useMemories.ts:123 | `note \|\| existingMemory.note`: an empty note keeps the old one, any other replaces it. |
| MemoryOps.CreateEffectCases | src/hooks/useMemories.ts:76-149 | A create that fails in the loop keeps the memories; one on an existing date merges the note and appends the ids; one on a new date adds the memory. |
| MemoryOps.CreatePhotoTable | src/hooks/useMemories.ts:102-136 | Create's photo table is the loop's, and a failed create changes no memory. |
| MemoryOps.CreateFailureKeepsMemories | src/hooks/useMemories.ts:142-145 | A failed create keeps every memory and every photo that was stored: nothing is rolled back or lost. |
| MemoryOps.CreateMergesIntoExisting | src/hooks/useMemories.ts:87-126 | Create on a used date adds no memory; the least-keyed memory on the date gets the new ids after its old ones, keeps date and creation time, and an empty note keeps its note. |
| MemoryOps.CreateAddsNewMemory | src/hooks/useMemories.ts:96-136 | Create on a new date adds exactly one memory, under the first fresh id, created and updated now, owning the new photos. |
| MemoryOps.CreateAddsPhotos | src/hooks/useMemories.ts:102-115 | A completed create adds one photo per file under the fresh ids, owned by the target memory, and keeps every old photo. |
| MemoryOps.AddPhotosComplete | src/hooks/useMemories.ts:102-115 | A finished loop adds exactly the fresh ids, one row per file, and keeps the old rows. |
| MemoryOps.AddPhotosGrowth | src/hooks/useMemories.ts:102-115 | A finished loop grows the table by exactly one key per file. |
| MemoryOps.AddPhotosKeys | src/hooks/useMemories.ts:102-115 | The keys after a finished loop are the old keys and the fresh ids. |
| MemoryOps.CreateKeepsKeyed | src/hooks/useMemories.ts:76-149 | Create keeps every row under its own key. |
| MemoryOps.Without | src/hooks/useMemories.ts:165 | The filter keeps exactly the ids not removed. |
| MemoryOps.WithoutAppend | src/hooks/useMemories.ts:165 | The filter keeps order: filtering a joined list joins the filtered parts. |
| MemoryOps.WithoutNothing | src/hooks/useMemories.ts:165 | With nothing to remove the list is unchanged, order included. |
| MemoryOps.DropPhotos | src/hooks/useMemories.ts:184-186 | `anyOf(ids).delete()` leaves exactly the other keys, their rows unchanged. |
| MemoryOps.UpdateMissing | src/hooks/useMemories.ts:161-162 | Updating a missing memory fails and writes nothing. |
| MemoryOps.UpdateRewritesMemory | src/hooks/useMemories.ts:165-194 | A completed update keeps the surviving ids in order, then the new ids; overwrites date and note, even with an empty note; keeps the creation time and every other memory. |
| MemoryOps.UpdatePhotoTable | src/hooks/useMemories.ts:168-186 | A completed update deletes every removed id, even one another memory owns, adds one photo per new file, and keeps every other photo. |
| MemoryOps.UpdateFailureKeepsPartialProgress | src/hooks/useMemories.ts:199-202 | A failed update changes no memory, yet photos added before the failure stay: there is no rollback. |
| MemoryOps.UpdateKeepsKeyed | src/hooks/useMemories.ts:152-206 | Update keeps every row under its own key. |
| MemoryOps.DeleteCascades | src/hooks/useMemories.ts:209-231 | Delete fails exactly on a missing id, changing nothing; otherwise the memory and all its photos go, and every other memory and photo stays. |
| MemoryOps.NoPhotosOf | src/hooks/useMemories.ts:236 | A table with no photo of the memory lists none for it. |
| MemoryOps.OrEmpty | src/hooks/useMemories.ts:314 | A missing photo array counts as empty. |
| MemoryOps.ExportPhoto | src/hooks/useMemories.ts:263-268 | An exported photo keeps every field but carries its blob as a data URL. |
| MemoryOps.Export | src/hooks/useMemories.ts:254-278 | The export is stamped "1.0" and the time, and holds one entry per memory and per photo. |
| MemoryOps.ImportPhoto | src/hooks/useMemories.ts:314-320 | An imported photo keeps id, owner and creation time. |
| MemoryOps.AllOf | src/hooks/useMemories.ts:313-321 | `Promise.all` settles exactly when every element does, with each result at its own position. |
| MemoryOps.ImportPhotos | src/hooks/useMemories.ts:313-321 | Every photo is decoded, in order, or the import fails when one decode throws. |
| MemoryOps.BulkAdd | src/hooks/useMemories.ts:324 | A successful `bulkAdd` stores each row under its own key and nothing else. |
| MemoryOps.BulkAddHalts | src/hooks/useMemories.ts:324 | A duplicate key anywhere fails the whole `bulkAdd`. |
| MemoryOps.BulkAddDistinct | src/hooks/useMemories.ts:324 | Rows with distinct keys are all added. |
| MemoryOps.RowsDistinctKeys | src/hooks/useMemories.ts:258-259 | The listed rows of a keyed table have distinct keys. |
| MemoryOps.BulkAddRows | src/hooks/useMemories.ts:258-259 | A table's listed rows, added back, give the table. |
| MemoryOps.SameTable | src/hooks/useMemories.ts:324-327 | A table rebuilt from a listing of a keyed table is that table. |
| MemoryOps.ImportReplaces | src/hooks/useMemories.ts:300-340 | Import is all or nothing: a failure keeps the tables; a success replaces them with exactly the imported rows, whatever was stored before. |
| MemoryOps.ImportKeepsKeyed | src/hooks/useMemories.ts:307-328 | Import keeps every row under its own key. |
| MemoryOps.BulkAddSize | src/hooks/useMemories.ts:324 | A successful `bulkAdd` stores one row per input row. |
| MemoryOps.ImportExportedPhotos | src/hooks/useMemories.ts:262-270 | Decoding the exported photos gives back the stored rows, when every type is non-empty with no ';' and no ','. |
| MemoryOps.ImportExportRoundTrip | src/hooks/useMemories.ts:254-340 | For a keyed store whose photo types are non-empty with no ';' and no ',', importing its export reproduces it exactly, whatever the store held before. |
| MemoryOps.ExportedPhotosDecode | src/hooks/useMemories.ts:259-270 | When every photo type is non-empty with no ';' and no ',', the exported photos decode back to the stored rows, in listing order. |
| MemoryHook.Hook.constructor | src/hooks/useMemories.ts:41-43 | The hook starts with an empty list, not loading, no error. |
| MemoryHook.Hook.LoadMemories | src/hooks/useMemories.ts:46-58 | A load sets the list to the stored memories latest first and clears the error; a failed read records the error and keeps the list. |
| MemoryHook.Hook.Finish | src/hooks/useMemories.ts:139-147 | A mutating call that succeeds ends reloaded with no error, or with the old list and no error when the reload's read fails; a failed call shows its own error with the old list; never loading. |
| MemoryHook.Hook.AddFiles | src/hooks/useMemories.ts:102-115 | The photo loop leaves the photo table, the pushed ids and the outcome `AddPhotos` gives, and the memories untouched. |
| MemoryHook.Hook.CreateMemory | src/hooks/useMemories.ts:76-149 | The store ends as `CreateEffect` says, every row keyed, and the hook reloaded, or keeping its old list with no error when the reload fails, or showing the create error with the old list. |
| MemoryHook.Hook.CreateInStore | src/hooks/useMemories.ts:83-136 | The store's part of create leaves the tables `CreateEffect` gives. |
| MemoryHook.Hook.UpdateMemory | src/hooks/useMemories.ts:152-206 | The store ends as `UpdateEffect` says, every row keyed, and the hook reloaded, or keeping its old list with no error when the reload fails, or showing the update error with the old list. |
| MemoryHook.Hook.UpdateInStore | src/hooks/useMemories.ts:161-194 | The store's part of update leaves the tables `UpdateEffect` gives. |
| MemoryHook.Hook.DeleteMemory | src/hooks/useMemories.ts:209-231 | The store ends as `DeleteEffect` says, every row keyed, and the hook reloaded, or keeping its old list with no error when the reload fails, or showing the delete error with the old list. |
| MemoryHook.Hook.GetPhotosByMemoryId | src/hooks/useMemories.ts:234-241 | The result is exactly the memory's stored photos. |
| MemoryHook.Hook.GetPhoto | src/hooks/useMemories.ts:244-251 | The stored row under the id, or none exactly when there is none. |
| MemoryHook.Hook.ExportData | src/hooks/useMemories.ts:254-297 | The document is the export of the current tables, and no table changes. |
| MemoryHook.Hook.ImportData | src/hooks/useMemories.ts:300-340 | The store ends as `ImportEffect` says, every row keyed, and the hook reloaded, or keeping its old list with no error when the reload fails, or showing the import error with the old list. |
| MemoryHook.Hook.DecodePhotos | src/hooks/useMemories.ts:313-321 | The decode loop gives the photos `ImportPhotos` gives, or fails when it does. |
| MemoryHook.Hook.BulkAddPhotos | src/hooks/useMemories.ts:324 | Into the cleared photo table, the rows are stored exactly when their keys are distinct. |
| MemoryHook.Hook.BulkAddMemories | src/hooks/useMemories.ts:327 | Into the cleared memory table, the rows are stored exactly when their keys are distinct. |
| ImageCompression.CompressImage | src/utils/imageCompression.ts:38-73 | A file under 200 KiB comes back untouched; a larger one goes to the library with the preview options, and comes back untouched if the library fails; only a success reports 100. |
| ImageCompression.GenerateThumbnail | src/utils/imageCompression.ts:78-101 | The library's thumbnail, or the input itself when the library fails. |
| ImageCompression.CompressImageOutcome | src/utils/imageCompression.ts:38-73 | Whatever the library does, the result is the input or the library's preview of it. |
| ImageCompression.ThresholdMismatch | src/utils/imageCompression.ts:161-163 | `needsCompression` (more than 200 KiB) and the skip test of `compressImage` (less than 200 KiB, line 49) disagree exactly on a file of 200 KiB, which is compressed though `needsCompression` says no. |
| ImageCompression.ThresholdWitness | src/utils/imageCompression.ts:49-52 | A file of exactly 204800 bytes is sent to the library and declared not to need compression. |
| ImageCompression.BatchReports | src/utils/imageCompression.ts:121 | After i files the progress calls are (1, n) to (i, n). |
| ImageCompression.CompressImages | src/utils/imageCompression.ts:106-126 | Every file goes through `compressImage`, in order, each followed by one progress call. |
| ImageCompression.CompressImagesPositional | src/utils/imageCompression.ts:106-126 | Each batch result is its own file or the library's preview of that file. |
| ImageCompression.GenerateImageVersions | src/utils/imageCompression.ts:131-148 | Preview and thumbnail are both made from the original file. |
| RemoteStore.Truthy | src/services/dataService.ts:93 | `null` and `''` count as absent. |
| RemoteStore.OrDefault | src/services/dataService.ts:305-306 | `value \|\| fallback` takes the value when truthy, the fallback otherwise. |
| RemoteStore.ToMemory | src/services/dataService.ts:90-97 | A row keeps id, date and times; no note becomes ''; the photo list starts empty. |
| RemoteStore.ToPhoto | src/services/dataService.ts:302-310 | A row keeps id, owner and time; the type defaults to JPEG; the blob is an empty placeholder whose type is that type as the Blob constructor normalises it; an empty thumbnail becomes absent. |
| RemoteStore.PlaceholderTypeLowerCased | src/services/dataService.ts:305 | A type stored in capitals stays so in `mimeType` while the placeholder blob's type is lower-cased. |
| RemoteStore.LaterDateIsTotalPreorder | src/services/dataService.ts:82 | Descending date order compares any two rows and is transitive. |
| RemoteStore.MapMemories | src/services/dataService.ts:90-97 | Mapping keeps length and maps each row at its own position. |
| RemoteStore.MapPhotos | src/services/dataService.ts:296-311 | Mapping keeps length and maps each row at its own position. |
| RemoteStore.GetMemories | src/services/dataService.ts:77-102 | A failed query throws its error; otherwise one record per row. |
| RemoteStore.MemoriesDescending | src/services/dataService.ts:82-97 | Rows in descending date order give records in descending date order. |
| RemoteStore.MemoriesCover | src/services/dataService.ts:90-97 | Mapping the stored rows lists every stored row and nothing else. |
| RemoteStore.GetMemoriesListing | src/services/dataService.ts:77-102 | The list runs from the latest date to the earliest and holds exactly the stored rows, mapped. |
| RemoteStore.PhotoRowsOf | src/services/dataService.ts:283-287 | The query returns exactly the memory's stored rows. |
| RemoteStore.GetPhotos | src/services/dataService.ts:279-319 | A failed query throws its error; otherwise the query succeeds. |
| RemoteStore.PhotosCover | src/services/dataService.ts:287-311 | Rows oldest first give records oldest first, all of the memory, and every one of its rows. |
| RemoteStore.GetPhotosListing | src/services/dataService.ts:279-319 | The photos come oldest first, each a row of the memory, and every row of the memory is there. |
| RemoteStore.FilesToDelete | src/services/dataService.ts:245-248 | The flattened path list holds exactly the non-empty storage paths and thumbnail URLs of the rows, at most two per row. |
| RemoteStore.SplitLastPreceded | src/services/dataService.ts:337 | `pop()` gives the whole name, or text right after a separator. |
| RemoteStore.LastPieceFacts | src/services/dataService.ts:337 | The last piece is a dot-free suffix, empty exactly when the name is empty or ends in '.'. |
| RemoteStore.Extension | src/services/dataService.ts:337 | The extension is the text after the last dot, the whole dot-free name, or 'jpg' when that text is empty. |
| RemoteStore.StoragePath | src/services/dataService.ts:336-346 | The object path is `user/memory/photoId.ext`. |
| RemoteStore.DotFreeSuffix | src/services/dataService.ts:337 | The extension holds no dot. |
| RemoteStore.LastSegmentUnique | src/services/dataService.ts:337 | A name has only one text after its last dot. |
| RemoteStore.ExtensionAfterLastDot | src/services/dataService.ts:337 | `stem.ext` has extension `ext` whatever the stem holds. |
| RemoteStore.Bumped | src/services/dataService.ts:401 | The new count is the old one plus one, an unread count counting as 0. |
| RemoteStore.Dropped | src/services/dataService.ts:469 | The new count is one less, never below 0. |
| RemoteStore.DroppedUndoesBumped | src/services/dataService.ts:469 | Removing a photo after adding one (the bump of line 401) restores any non-negative count. |
| RemoteStore.Cascade | src/services/dataService.ts:258 | The foreign-key cascade removes exactly the memory's photo rows. |
| RemoteStore.DeletionPaths | src/services/dataService.ts:238-248 | The paths removed are the memory's non-empty file paths, or none when the query gave nothing. |
| RemoteStore.WithCount | src/services/dataService.ts:403-406 | Only the memory's count changes, and only when the write goes through. |
| RemoteStore.CountOf | src/services/dataService.ts:395-399 | The count is read exactly when the query answers and the row exists. |
| RemoteStore.Elements | src/services/dataService.ts:251-254 | The set of paths in a request. |
| RemoteStore.Cloud.constructor | src/services/dataService.ts:32-57 | The backend starts with empty `memories` and `photos` tables, an empty bucket and no removal request. |
| RemoteStore.Cloud.CreateMemory | src/services/dataService.ts:165-202 | Without a user or on an insert error nothing is written; otherwise a row with photo count 0 is added under the new id. |
| RemoteStore.Cloud.UpdateMemory | src/services/dataService.ts:207-230 | On success the row's date and note are overwritten and its time stamped; an unknown id changes nothing. |
| RemoteStore.Cloud.RemoveObjects | src/services/dataService.ts:251-254 | The request is recorded; the objects go when the bucket complies. |
| RemoteStore.Cloud.DeleteMemory | src/services/dataService.ts:235-272 | The files are removed first, only when there are any; a failed row delete throws with the rows kept; otherwise the row goes and its photos cascade. |
| RemoteStore.Cloud.RemoveFilesOf | src/services/dataService.ts:238-256 | The memory's files are removed when there are any. |
| RemoteStore.Cloud.UploadPhoto | src/services/dataService.ts:324-422 | The object is stored first; an upload failure throws; a failed dimension read or insert throws after the object is stored; otherwise the row is inserted and the count bumped. |
| RemoteStore.Cloud.DeletePhoto | src/services/dataService.ts:427-479 | An unknown photo throws; the file removal is tried and its failure ignored; a failed row delete throws; otherwise the row goes and the count drops, never below 0. |
| RemoteStore.DeleteMemoryLeavesNoPhotos | src/services/dataService.ts:258 | After the cascade no row of the memory is left and every other row stays. |
| RemoteStore.DeletionPathsCoverPhotos | src/services/dataService.ts:238-255 | Every file of the memory's photos is among the paths removed. |
| Migration.Plus | src/utils/migrateToSupabase.ts:153-154 | Tallies add component-wise. |
| Migration.TotalSize | src/utils/migrateToSupabase.ts:249-254 | No photos have total size 0. |
| Migration.UploadFile | src/utils/migrateToSupabase.ts:144-146 | The uploaded file carries the photo's bytes (so its size is the blob's), is named `photo_<j>.jpg`, and is typed with the photo's type normalised, or JPEG when it has none. |
| Migration.MigratedObjectsAreJpg | src/utils/migrateToSupabase.ts:144-152 | Whatever the photo's type, its object is stored under `<user>/<memory>/<photo>.jpg`. |
| Migration.UploadsBounded | src/utils/migrateToSupabase.ts:132-161 | A memory's photo loop counts at most every photo and at most their total size. |
| Migration.UploadsAllSucceed | src/utils/migrateToSupabase.ts:132-161 | When every upload succeeds every photo and its size are counted. |
| Migration.UploadsAllFail | src/utils/migrateToSupabase.ts:150-160 | When every upload fails nothing is counted, yet the loop goes through them all. |
| Migration.MigrationNeedsUser | src/utils/migrateToSupabase.ts:44-48 | Without a user nothing is migrated and the error says so. |
| Migration.MigrationOfNothing | src/utils/migrateToSupabase.ts:63-72 | An empty store migrates successfully with every statistic 0. |
| Migration.MigrateAllBounded | src/utils/migrateToSupabase.ts:108-162 | The migration counts no more photos than the listed memories own. |
| Migration.MigrateAllStopsAtCreate | src/utils/migrateToSupabase.ts:119-120 | A failed cloud create fails the whole migration. |
| Migration.MigrationCounts | src/utils/migrateToSupabase.ts:175-182 | A successful migration reports every local memory and at most every local photo. |
| Migration.MigrateAllEverything | src/utils/migrateToSupabase.ts:108-162 | When every create and upload succeeds every photo of every memory is counted. |
| Migration.Migrate | src/utils/migrateToSupabase.ts:30-191 | The nested loops compute the specified migration result. |
| Migration.MigrateMemories | src/utils/migrateToSupabase.ts:108-162 | The memory loop computes `MigrateAll`. |
| Migration.UploadPhotos | src/utils/migrateToSupabase.ts:132-161 | The photo loop computes the tally of successful uploads. |
| Migration.MigrateAllStep | src/utils/migrateToSupabase.ts:108-162 | One more memory: a failed create ends the loop with its error, otherwise its uploads are added. |
| Migration.MigrateAllHalts | src/utils/migrateToSupabase.ts:119-120 | Once the loop fails, later memories change nothing. |
| Migration.ClearLocalData | src/utils/migrateToSupabase.ts:205-222 | Both tables are emptied. |
| Migration.NeedsMigrationIffWork | src/utils/migrateToSupabase.ts:227-235 | Migration is needed exactly when there is a memory to migrate. |
| Migration.GetLocalDataStats | src/utils/migrateToSupabase.ts:240-269 | The counts of both tables and the sum of blob sizes, or zeros when a read fails. |
| Migration.SumSizes | src/utils/migrateToSupabase.ts:249-254 | The loop adds up every blob size. |
| Migration.ClearedStoreIsEmpty | src/utils/migrateToSupabase.ts:205-269 | After clearing, nothing needs migrating and the size total is 0. |
| Migration.ToLegacy | src/utils/migrateToSupabase.ts:283-294 | A legacy photo keeps its fields and carries a data URL. |
| Migration.LegacyPhotoDecodes | src/utils/migrateToSupabase.ts:283-294 | The legacy `base64` field decodes back to the photo's blob. |
| Migration.ExportLocalData | src/utils/migrateToSupabase.ts:274-313 | The backup holds version "1.0", the time, all memories and every photo as a data URL, in key order. |
| Migration.ToLegacyAll | src/utils/migrateToSupabase.ts:281-295 | Every row converted, in order. |
| ImageViewer.JsRem | src/components/ImageViewer.tsx:36 | JavaScript `%`: `NaN` exactly for a zero divisor, the usual remainder for non-negative operands. |
| ImageViewer.StepsWrapAround | src/components/ImageViewer.tsx:35-40 | From a position among n photos the arrows step one back or forward, wrapping at the ends. |
| ImageViewer.StepsAreInverse | src/components/ImageViewer.tsx:35-40 | Next undoes previous and previous undoes next. |
| ImageViewer.HandleKey | src/components/ImageViewer.tsx:28-44 | Nothing while closed; Escape closes, arrows step, other keys are ignored. |
| ImageViewer.Render | src/components/ImageViewer.tsx:62-64 | Nothing while closed or empty; the photo at the index with its `k / n` counter; a render failure on an index out of range. |
| ImageViewer.ArrowsKeepShowing | src/components/ImageViewer.tsx:35-40 | Once a photo is shown, the arrows always lead to another photo shown. |
| ImageViewer.HandleMouseDown | src/components/ImageViewer.tsx:51-60 | A mouse press closes the viewer exactly when a photo is drawn and the press is outside the photo container; otherwise it is ignored. |
| ImageViewer.ArrowButtonsPressClose | src/components/ImageViewer.tsx:77-104 | The arrow buttons lie outside the container, so pressing one with the mouse closes the viewer, while the arrow keys step. |
| Timeline.UrlsOf | src/components/Timeline.tsx:55 | The URLs of the entries, in order. |
| Timeline.PhotosOf | src/components/Timeline.tsx:46-52 | The photos of the entries, in order. |
| Timeline.WithUrls | src/components/Timeline.tsx:46-52 | One entry per photo, in order, each with a fresh URL, and these tokens only. |
| Timeline.AllTokens | src/components/Timeline.tsx:79-81 | The tokens recorded under every listed key. |
| Timeline.RecordedTokens | src/components/Timeline.tsx:79-81 | A memory's recorded tokens are among those the cleanup revokes. |
| Timeline.RevokeList | src/components/Timeline.tsx:42 | Exactly the listed tokens stop being live. |
| Timeline.RevokeRecord | src/components/Timeline.tsx:76-83 | Exactly the recorded tokens stop being live. |
| Timeline.MintUrls | src/components/Timeline.tsx:46-52 | One new live URL per photo, in order. |
| Timeline.UrlRecord | src/components/Timeline.tsx:55 | The recorded URLs are the displayed entries' URLs, key by key. |
| Timeline.TimelineView.constructor | src/components/Timeline.tsx:29-31 | Both records start empty. |
| Timeline.TimelineView.LoadImages | src/components/Timeline.tsx:38-65 | The old URLs are revoked first; a successful fetch records new URLs for that memory alone; a failed one keeps the records. |
| Timeline.TimelineView.Record | src/components/Timeline.tsx:55-61 | Both records hold the memory's new entries; other keys are kept. |
| Timeline.TimelineView.LoadAll | src/components/Timeline.tsx:68-73 | Each memory with a successful fetch shows exactly its photos; memories not listed keep their entries. |
| Timeline.TimelineView.Unmount | src/components/Timeline.tsx:76-83 | Every recorded URL is revoked. |
| Timeline.TimelineView.LoadAndCleanUp | src/components/Timeline.tsx:115-124 | After one load the cleanup revokes the URLs of every other memory still on display, though they stay recorded and shown. |
| EditorModal.NewFilePreviews | src/components/EditorModal.tsx:76-80 | One new, non-existing entry per file, in order, with consecutive object URLs. |
| EditorModal.NewFilePreviewsTokens | src/components/EditorModal.tsx:76-80 | The new files' URLs use consecutive tokens, each once. |
| EditorModal.ExistingPreviews | src/components/EditorModal.tsx:83-98 | One entry per existing photo. |
| EditorModal.ExistingPreviewsFields | src/components/EditorModal.tsx:83-98 | Each existing entry keeps the photo id, is marked existing, and shows the public URL when there is one, an object URL otherwise. |
| EditorModal.ExistingPreviewsTokens | src/components/EditorModal.tsx:83-98 | The existing photos' object URLs use consecutive tokens, each once. |
| EditorModal.Previews | src/components/EditorModal.tsx:100 | One entry per existing photo and per new file. |
| EditorModal.PreviewsTokens | src/components/EditorModal.tsx:75-100 | One run's preview list uses exactly the tokens it minted, each once. |
| EditorModal.PreviewsJoin | src/components/EditorModal.tsx:100 | The list is the existing entries followed by the new ones. |
| EditorModal.CleanupKeepsPublicUrls | src/components/EditorModal.tsx:105-111 | The cleanup never revokes a public URL. |
| EditorModal.CleanupRevokesOwnUrls | src/components/EditorModal.tsx:105-111 | With distinct photo ids the cleanup revokes exactly the object URLs its run minted. |
| EditorModal.NoPublicUrl | src/components/EditorModal.tsx:108 | With distinct ids a photo without a public URL is not matched by the `find`. |
| EditorModal.Without | src/components/EditorModal.tsx:132 | The filter drops exactly the element at the index, or nothing when it is out of range. |
| EditorModal.Editor.constructor | src/components/EditorModal.tsx:39-47 | The form starts with today's date, an empty note, the initial files and no removals or previews. |
| EditorModal.Editor.Open | src/components/EditorModal.tsx:50-65 | Opening fills the form from the memory being edited, or resets it to today with no files; removals are emptied. |
| EditorModal.Editor.BuildPreviews | src/components/EditorModal.tsx:68-102 | The preview list is the existing entries then the new ones, with exactly the newly minted URLs made live. |
| EditorModal.Editor.Cleanup | src/components/EditorModal.tsx:105-111 | Exactly the tokens the cleanup rule picks stop being live. |
| EditorModal.Editor.HandleFileChange | src/components/EditorModal.tsx:116-121 | Picked files are appended in order; an empty pick changes nothing. |
| EditorModal.Editor.RemoveFile | src/components/EditorModal.tsx:124-134 | An existing entry's id is added to the removals; a new entry drops its file and nothing else. |
| EditorModal.Editor.Submit | src/components/EditorModal.tsx:137-143 | Nothing is saved with no date or no photo left; otherwise the form is saved as it stands. |
| EditorModal.MintNewFilePreviews | src/components/EditorModal.tsx:76-80 | The loop mints one URL per file and builds the new entries. |
| EditorModal.MintExistingPreviews | src/components/EditorModal.tsx:83-98 | The loop mints a URL only for a photo without a public URL. |
| EditorModal.RemoveFileTargetsChosen | src/components/EditorModal.tsx:124-134 | On a built list the index names that existing photo, or a new file in range, which the filter drops alone. |
| TimelineSidebar.CountIn | src/components/TimelineSidebar.tsx:35 | A year's count is at most the number of memories. |
| TimelineSidebar.Badge | src/components/TimelineSidebar.tsx:257-260 | A month's badge is at most its year's count. |
| TimelineSidebar.BadgeIffMonth | src/components/TimelineSidebar.tsx:257-260 | A month shows a positive badge exactly when it is among the year's months. |
| TimelineSidebar.AppendOne | src/components/TimelineSidebar.tsx:25-36 | One more memory adds its year, its month under that year, and one to that year's count. |
| TimelineSidebar.HitsOnce | src/components/TimelineSidebar.tsx:39-45 | A year listed once is counted once. |
| TimelineSidebar.NoYearNoCount | src/components/TimelineSidebar.tsx:25-36 | A year without memories has no months and count 0. |
| TimelineSidebar.ZeroCounts | src/components/TimelineSidebar.tsx:25-36 | With no memories the counts over any list of years add up to 0. |
| TimelineSidebar.SumCountsAppend | src/components/TimelineSidebar.tsx:35 | One more memory adds one to the sum over its year. |
| TimelineSidebar.CountsSumToTotal | src/components/TimelineSidebar.tsx:35 | The counts of all years add up to the number of memories. |
| TimelineSidebar.DistinctMultiplicity | src/components/TimelineSidebar.tsx:42 | A list without duplicates holds each element once. |
| TimelineSidebar.SortedAscending | src/components/TimelineSidebar.tsx:42 | A year's months sort into a strictly increasing list of the same months. |
| TimelineSidebar.SortedDescending | src/components/TimelineSidebar.tsx:45 | The years sort into a strictly decreasing list of the same years. |
| TimelineSidebar.Add | src/components/TimelineSidebar.tsx:34 | `Set.add` keeps elements once and adds the new one. |
| TimelineSidebar.GroupByYear | src/components/TimelineSidebar.tsx:25-36 | The grouping holds each year once with exactly its months and its count. |
| TimelineSidebar.TimelineData | src/components/TimelineSidebar.tsx:22-46 | One entry per year, latest first, each with its months ascending and its number of memories. |
| TimelineSidebar.NonEmptyYear | src/components/TimelineSidebar.tsx:25-36 | A listed year has a month. |
| TimelineSidebar.NoMonthDisabled | src/components/TimelineSidebar.tsx:201 | No month button of a drawn year is ever disabled. |
| TimelineSidebar.YearsOf | src/components/TimelineSidebar.tsx:39-45 | The years of the entries, in order. |
| TimelineSidebar.TimelineCountsSum | src/components/TimelineSidebar.tsx:22-46 | The entries' counts add up to the number of memories. |
| TimelineSidebar.Nearest | src/components/TimelineSidebar.tsx:61-67 | The month found is one of the year's months. |
| TimelineSidebar.NearestIsClosest | src/components/TimelineSidebar.tsx:61-67 | No month of the year is closer to the clicked one. |
| TimelineSidebar.NearestTiesToSmaller | src/components/TimelineSidebar.tsx:61-67 | On a tie the smaller month wins. |
| TimelineSidebar.NearestMonth | src/components/TimelineSidebar.tsx:61-67 | The loop finds the nearest month. |
| TimelineSidebar.FindYear | src/components/TimelineSidebar.tsx:58 | `find` returns an entry of that year, or none exactly when there is none. |
| TimelineSidebar.HandleMonthClick | src/components/TimelineSidebar.tsx:52-73 | A month with memories is selected; an empty one jumps to the nearest month of its year; a year without months selects nothing. |
| PasswordModal.CheckNewPasswords | src/components/PasswordModal.tsx:77-85 | A new pair passes exactly when neither is blank and both are at least 4 code units long; the error names the first check that fails. |
| PasswordModal.WhitespaceRejected | src/components/PasswordModal.tsx:77-80 | A password of white space alone is refused as blank. |
| PasswordModal.SamePasswordAccepted | src/components/PasswordModal.tsx:77-85 | The view and edit passwords may be the same. |
| PasswordModal.PaddedShortPasswordAccepted | src/components/PasswordModal.tsx:82 | The length counts surrounding white space: " ab " passes. |
| PasswordModal.Dialog.constructor | src/components/PasswordModal.tsx:18-25 | The dialog starts with a blank form. |
| PasswordModal.Dialog.ResetState | src/components/PasswordModal.tsx:35-43 | Every form field goes back to its initial value. |
| PasswordModal.Dialog.Open | src/components/PasswordModal.tsx:28-33 | First-time setup exactly when no password is stored, and a blank form. |
| PasswordModal.Dialog.HandleValidatePassword | src/components/PasswordModal.tsx:51-71 | A blank entry is refused unasked; otherwise the store's verdict decides, and success closes the dialog granting edit mode exactly in edit mode. |
| PasswordModal.Dialog.HandleSetFirstPassword | src/components/PasswordModal.tsx:74-95 | The pair is stored only when it passes the checks and the store accepts it. |
| PasswordModal.Dialog.HandleChangePassword | src/components/PasswordModal.tsx:98-132 | The new pair is stored only after the current edit password checks out, and then setting mode ends. |
| ShareSettings.LocaleDate | src/components/ShareSettingsModal.tsx:75 | An invalid date prints as "Invalid Date". |
| ShareSettings.CountInRange | src/components/ShareSettingsModal.tsx:101-104 | The count is at most the number of memories. |
| ShareSettings.CountPositiveIffSome | src/components/ShareSettingsModal.tsx:69-72 | The count is positive exactly when `some` memory is in range. |
| ShareSettings.PhotosCountInRange | src/components/ShareSettingsModal.tsx:93-105 | 0 outside range mode or with a date missing; the number of memories in range otherwise. |
| ShareSettings.NotBeforeIsNotAfter | src/components/ShareSettingsModal.tsx:53-61 | "Not later than" is the negation of "strictly after". |
| ShareSettings.ValidateDateRange | src/components/ShareSettingsModal.tsx:41-84 | Share-everything passes; a range passes exactly when both dates are set and valid, ordered, not after today, and some memory is inside. |
| ShareSettings.ConfigOf | src/components/ShareSettingsModal.tsx:115-119 | The dates are saved exactly in range mode. |
| ShareSettings.DisabledSaveWouldFail | src/components/ShareSettingsModal.tsx:348 | A disabled save button never hides a range that would pass. |
| ShareSettings.PassingRangeCounts | src/components/ShareSettingsModal.tsx:348 | A passing range has a positive count, so the button is enabled. |
| ShareSettings.ShareSettingsModal.constructor | src/components/ShareSettingsModal.tsx:14-18 | The dialog starts in share-everything mode with no dates and no error. |
| ShareSettings.ShareSettingsModal.Open | src/components/ShareSettingsModal.tsx:21-38 | Opening loads the stored configuration, or the defaults, and clears the error. |
| ShareSettings.ShareSettingsModal.Validate | src/components/ShareSettingsModal.tsx:41-84 | The verdict, with the error line set or cleared to match. |
| ShareSettings.ShareSettingsModal.HandleSave | src/components/ShareSettingsModal.tsx:108-136 | Nothing is written unless validation passes; a failed write shows the save error with nothing stored; after a write the configuration is stored, and the dialog hands it on and closes when the read-back succeeds, or shows the save error and stays open when it fails. |
| App.Page.constructor | src/App.tsx:22-48 | Every dialog closed and nothing selected. |
| App.Page.HandleAddClick | src/App.tsx:51-56 | A blank editor opens. |
| App.Page.HandleEditClick | src/App.tsx:59-66 | The editor opens on the memory with its stored photos. |
| App.Page.HandleSaveMemory | src/App.tsx:69-81 | A save updates the memory being edited, or creates one when none is, with the page's state left alone; the hook's list is reloaded, kept with no error when the reload fails, or kept with the operation's error. |
| App.Page.HandleDeleteClick | src/App.tsx:84-87 | The memory is remembered and confirmation asked. |
| App.Page.HandleConfirmDelete | src/App.tsx:90-99 | The remembered memory is deleted; the dialog closes and the id clears whether or not the delete succeeds; the hook's list is reloaded, kept with no error when the reload fails, or kept with the delete error. |
| App.Page.HandleImageClick | src/App.tsx:102-119 | One new live URL per stored photo of the memory, in order; the viewer opens at the clicked position. |
| App.Page.HandleCloseImageViewer | src/App.tsx:122-127 | Every viewer URL is revoked, the list emptied, the viewer closed. |
| App.Page.ViewAndClose | src/App.tsx:102-127 | Opening the viewer and closing it again leaves exactly the URLs that were live before. |

## Left out

- JSON text: `importData` receives the already-parsed document, `None` where `JSON.parse` throws; the JSON grammar and `JSON.stringify` are not modelled.
- The file download of `exportData` and `downloadLocalBackup` (the link, its click and its URL) is not modelled; only the document written is.
- Reading a `File` (`file.text()`, `FileReader`, `arrayBuffer()`) always succeeds in the model; a reader error is not modelled.
- Concurrency: every `async` call is modelled as running to completion in program order; interleaved effects, React batching and re-renders are not modelled.
- Time: `Date.now()` and ISO timestamps are integer milliseconds given as inputs; `new Date('YYYY-MM-DD')`, `setHours` and time zones are modelled as whole-day comparisons.
- Dates.Parse: checks months 1..12 and days 1..31 but not the length of each month.
- The sidebar reads a memory date with `new Date(...).getFullYear()`; a date that does not parse (which gives `NaN`) is not modelled: the sidebar takes parsed days.
- formatFileSize, estimateCompressedSize and getImageDimensions (floating point and image decoding) are not modelled; the image's dimensions are an input of `uploadPhoto`.
- getMemoryWithPhotos is not modelled; `getPhotos` and `getMemories` carry the same row mapping.
- Progress callbacks of `migrateToSupabase` are not modelled, and compressImage's `onProgress` only as the list of reports.
- migrateToSupabase: the cloud calls inside its loop (`createMemory` and `uploadPhoto`) are oracles indexed by the memory's and the photo's position, not calls of `RemoteStore.Cloud`. The `File` handed to `uploadPhoto` is modelled (`Migration.UploadFile`, `Migration.MigratedObjectsAreJpg`), but the cloud rows and objects the loop writes are not, and neither is the fact that a failed create leaves the memories and uploads already written in the cloud (nothing is rolled back). The two extra arguments the loop passes to `uploadPhoto` are ignored in JavaScript.
- generateThumbnail: its comment says the preview is returned on failure; the code returns its input, which is what the model does.
- SQL tie order: the order of cloud rows with equal dates or equal creation times is not fixed by the model.
- The database's foreign-key cascade is assumed, not modelled from a schema; `RemoteStore.Cascade` states what it removes.
- initializeUser, getCurrentUser, getShareConfig, setShareConfig, hasPassword, validatePassword and setPassword live in code that is not part of this model; their answers are inputs.
- Random ids (`crypto.randomUUID`, `Math.random` in the editor's `new-` ids) come from an oracle given as a parameter.
- The IntersectionObserver of the timeline, rendering, hover state and the `showPassword` toggle are not modelled.
- The page's handlers swallow failures of `getPhotosByMemoryId`; the hook's version never fails, so those catch branches are not modelled.
- ImageViewer.Render: an index that is `NaN` (no photos and an arrow press) is modelled as an index out of range.
- MemoryHook.Hook.ExportData: the failure path (setting the export error) belongs to the download, which is not modelled, so the contract always ends with no error.
- Store writes fail in the model only on a key clash (`add` and `bulkAdd` of a key already present); quota errors and other IndexedDB failures are not modelled.
- An export whose photo has an empty type, or a type holding ';' or ',', does not come back unchanged on import: an empty type comes back as `image/jpeg` (`DataUrl.DecodeUntyped`), a ';' cuts the type short, and a ',' splits the URL in the wrong place. The model follows the File API, whose `readAsDataURL` writes an empty type for an untyped blob; browsers write `application/octet-stream` there, which would come back as that type.
- Timeline.TimelineView.LoadAll: the loads are modelled one after another; in the source they start together and may finish in any order.

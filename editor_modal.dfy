/**
 * The add/edit dialog: its form fields, the preview list of the photos it
 * shows (the memory's existing photos, then the newly picked files), which
 * preview URLs its cleanup revokes, removing a preview, and the submit
 * guard. Random preview ids come from an oracle keyed by the URL token.
 */
module EditorModal {
  import opened Wrappers
  import opened ObjectUrls
  import LocalDb
  import RemoteStore
  import Dates

  /** One entry of `previewUrls`. */
  datatype Preview = Preview(id: string, url: Url, isExisting: bool)

  /** The previews a run of the effect builds, and the token count after it. */
  datatype Minted = Minted(previews: seq<Preview>, next: nat)

  /** What `onSave` receives. */
  datatype SaveRequest = SaveRequest(date: string, note: string, files: seq<RemoteStore.File>, removedPhotoIds: seq<string>)

  /** Object-URL tokens of a preview list never repeat. */
  predicate TokensDistinct(ps: seq<Preview>)
  {
    forall i, j :: 0 <= i < j < |ps| && ps[i].url.ObjectUrl? && ps[j].url.ObjectUrl? ==> ps[i].url.token != ps[j].url.token
  }

  /** The object-URL tokens of a preview list. */
  function Tokens(ps: seq<Preview>): set<nat>
  {
    set i | 0 <= i < |ps| && ps[i].url.ObjectUrl? :: ps[i].url.token
  }

  /** The tokens of a preview in a one-element set, or none. */
  function TokenOf(p: Preview): set<nat>
  {
    if p.url.ObjectUrl? then {p.url.token} else {}
  }

  lemma TokensConcat(a: seq<Preview>, b: seq<Preview>)
    ensures Tokens(a + b) == Tokens(a) + Tokens(b)
  {
    var c := a + b;
    assert forall i :: 0 <= i < |a| ==> c[i] == a[i];
    assert forall j :: 0 <= j < |b| ==> c[|a| + j] == b[j];
    forall t | t in Tokens(b)
      ensures t in Tokens(c)
    {
      var j :| 0 <= j < |b| && b[j].url.ObjectUrl? && b[j].url.token == t;
      assert c[|a| + j] == b[j];
    }
  }

  lemma TokensOne(p: Preview)
    ensures Tokens([p]) == TokenOf(p)
  {
    assert [p][0] == p;
  }

  /** Two token-distinct lists with no token in common make a token-distinct list. */
  lemma DistinctConcat(a: seq<Preview>, b: seq<Preview>)
    requires TokensDistinct(a) && TokensDistinct(b)
    requires Tokens(a) * Tokens(b) == {}
    ensures TokensDistinct(a + b)
  {
    var c := a + b;
    forall i, j | 0 <= i < j < |c| && c[i].url.ObjectUrl? && c[j].url.ObjectUrl?
      ensures c[i].url.token != c[j].url.token
    {
      if i < |a| && j >= |a| {
        assert c[i] == a[i] && c[j] == b[j - |a|];
        var x, y := a[i].url.token, b[j - |a|].url.token;
        assert x in Tokens(a) && y in Tokens(b);
        assert x !in Tokens(a) * Tokens(b);
      } else if j < |a| {
        assert c[i] == a[i] && c[j] == a[j];
      } else {
        assert c[i] == b[i - |a|] && c[j] == b[j - |a|];
      }
    }
  }

  /** `newFiles.map(...)`: one object URL per new file, in order, minted from `first` on. */
  function NewFilePreviews(files: seq<RemoteStore.File>, newId: nat -> string, first: nat): (ps: seq<Preview>)
    ensures |ps| == |files|
    ensures forall j :: 0 <= j < |files| ==> !ps[j].isExisting && ps[j].url == ObjectUrl(first + j)
  {
    seq(|files|, j requires 0 <= j < |files| => Preview(newId(first + j), ObjectUrl(first + j), false))
  }

  /** The new files' previews use the tokens `first`, `first + 1`, ... once each. */
  lemma NewFilePreviewsTokens(files: seq<RemoteStore.File>, newId: nat -> string, first: nat)
    ensures var ps := NewFilePreviews(files, newId, first);
      TokensDistinct(ps) && Tokens(ps) == Range(first, first + |files|)
  {
    var ps := NewFilePreviews(files, newId, first);
    forall t | t in Range(first, first + |files|)
      ensures t in Tokens(ps)
    {
      assert ps[t - first].url.token == t;
    }
  }

  /**
   * `existing.map(...)`: each existing photo keeps its id and shows its
   * `publicUrl` when it has one, else an object URL made from its blob.
   */
  function ExistingPreviews(existing: seq<RemoteStore.Photo>, first: nat): (m: Minted)
    ensures |m.previews| == |existing| && first <= m.next
    decreases |existing|
  {
    if |existing| == 0 then Minted([], first)
    else
      var init := ExistingPreviews(existing[..|existing| - 1], first);
      var p := existing[|existing| - 1];
      var q := if RemoteStore.Truthy(p.publicUrl).Some? then Preview(p.id, PublicUrl(p.publicUrl.value), true)
               else Preview(p.id, ObjectUrl(init.next), true);
      var next := if q.url.ObjectUrl? then init.next + 1 else init.next;
      Minted(init.previews + [q], next)
  }

  /**
   * Each existing photo's preview keeps its id and is marked existing; it
   * shows the public URL when there is one and an object URL otherwise.
   */
  lemma {:induction false} ExistingPreviewsFields(existing: seq<RemoteStore.Photo>, first: nat)
    ensures var m := ExistingPreviews(existing, first);
      forall i :: 0 <= i < |existing| ==>
        && m.previews[i].id == existing[i].id && m.previews[i].isExisting
        && (RemoteStore.Truthy(existing[i].publicUrl).Some? ==> m.previews[i].url == PublicUrl(existing[i].publicUrl.value))
        && (RemoteStore.Truthy(existing[i].publicUrl).None? ==> m.previews[i].url.ObjectUrl?)
    decreases |existing|
  {
    if |existing| > 0 {
      var init := ExistingPreviews(existing[..|existing| - 1], first);
      ExistingPreviewsFields(existing[..|existing| - 1], first);
      var m := ExistingPreviews(existing, first);
      assert m.previews == init.previews + [m.previews[|existing| - 1]];
    }
  }

  /** The existing photos' object URLs use the tokens from `first` up to `next`, once each. */
  lemma {:induction false} ExistingPreviewsTokens(existing: seq<RemoteStore.Photo>, first: nat)
    ensures var m := ExistingPreviews(existing, first);
      TokensDistinct(m.previews) && Tokens(m.previews) == Range(first, m.next)
    decreases |existing|
  {
    if |existing| > 0 {
      var init := ExistingPreviews(existing[..|existing| - 1], first);
      ExistingPreviewsTokens(existing[..|existing| - 1], first);
      var m := ExistingPreviews(existing, first);
      var q := m.previews[|existing| - 1];
      assert m.previews == init.previews + [q];
      TokensConcat(init.previews, [q]);
      TokensOne(q);
      DistinctConcat(init.previews, [q]);
    }
  }

  /** `[...existingPhotoUrls, ...newFileUrls]`, with the new files' URLs minted first, as the effect does. */
  function Previews(existing: seq<RemoteStore.Photo>, files: seq<RemoteStore.File>, newId: nat -> string, first: nat): (m: Minted)
    ensures |m.previews| == |existing| + |files| && first + |files| <= m.next
  {
    var e := ExistingPreviews(existing, first + |files|);
    Minted(e.previews + NewFilePreviews(files, newId, first), e.next)
  }

  /** One run's previews use the tokens from `first` up to `next`, each once. */
  lemma PreviewsTokens(existing: seq<RemoteStore.Photo>, files: seq<RemoteStore.File>, newId: nat -> string, first: nat)
    ensures var m := Previews(existing, files, newId, first);
      TokensDistinct(m.previews) && Tokens(m.previews) == Range(first, m.next)
  {
    var n := NewFilePreviews(files, newId, first);
    var e := ExistingPreviews(existing, first + |files|);
    NewFilePreviewsTokens(files, newId, first);
    ExistingPreviewsTokens(existing, first + |files|);
    TokensConcat(e.previews, n);
    DistinctConcat(e.previews, n);
    RangeSplit(first, first + |files|, e.next);
  }

  /** The list `Previews` builds is the existing photos' previews followed by the new files'. */
  lemma PreviewsJoin(existing: seq<RemoteStore.Photo>, files: seq<RemoteStore.File>, newId: nat -> string, first: nat)
    ensures var e := ExistingPreviews(existing, first + |files|);
      && Previews(existing, files, newId, first).previews == e.previews + NewFilePreviews(files, newId, first)
      && Previews(existing, files, newId, first).next == e.next
  {
  }

  /** Some existing photo with this id has a (truthy) public URL: `existing.find(p => p.id === id && p.publicUrl)`. */
  predicate HasPublicUrl(existing: seq<RemoteStore.Photo>, id: string)
  {
    exists k :: 0 <= k < |existing| && existing[k].id == id && RemoteStore.Truthy(existing[k].publicUrl).Some?
  }

  /** The cleanup's test: a new entry, or an existing one whose photo has no public URL. */
  predicate Revokes(item: Preview, existing: seq<RemoteStore.Photo>)
  {
    !item.isExisting || !HasPublicUrl(existing, item.id)
  }

  /** The object-URL tokens the cleanup of a preview list revokes. */
  function RevokedTokens(ps: seq<Preview>, existing: seq<RemoteStore.Photo>): set<nat>
  {
    set i | 0 <= i < |ps| && ps[i].url.ObjectUrl? && Revokes(ps[i], existing) :: ps[i].url.token
  }

  predicate DistinctIds(existing: seq<RemoteStore.Photo>)
  {
    forall i, j :: 0 <= i < j < |existing| ==> existing[i].id != existing[j].id
  }

  /** The cleanup never revokes a public URL of the previews one run builds. */
  lemma CleanupKeepsPublicUrls(existing: seq<RemoteStore.Photo>, files: seq<RemoteStore.File>, newId: nat -> string, first: nat)
    ensures var ps := Previews(existing, files, newId, first).previews;
      forall i :: 0 <= i < |ps| && ps[i].url.PublicUrl? ==> !Revokes(ps[i], existing)
  {
    var ps := Previews(existing, files, newId, first).previews;
    var e := ExistingPreviews(existing, first + |files|);
    ExistingPreviewsFields(existing, first + |files|);
    forall i | 0 <= i < |ps| && ps[i].url.PublicUrl?
      ensures !Revokes(ps[i], existing)
    {
      assert i < |existing| && ps[i] == e.previews[i];
      assert existing[i].id == ps[i].id;
    }
  }

  /**
   * Photo ids being keys, the cleanup of the previews one run builds
   * revokes exactly the object URLs that run minted.
   */
  lemma CleanupRevokesOwnUrls(existing: seq<RemoteStore.Photo>, files: seq<RemoteStore.File>, newId: nat -> string, first: nat)
    requires DistinctIds(existing)
    ensures RevokedTokens(Previews(existing, files, newId, first).previews, existing) == Range(first, Previews(existing, files, newId, first).next)
  {
    var m := Previews(existing, files, newId, first);
    var ps := m.previews;
    var e := ExistingPreviews(existing, first + |files|);
    var n := NewFilePreviews(files, newId, first);
    PreviewsTokens(existing, files, newId, first);
    forall t | t in Range(first, m.next)
      ensures t in RevokedTokens(ps, existing)
    {
      var i :| 0 <= i < |ps| && ps[i].url.ObjectUrl? && ps[i].url.token == t;
      if i < |existing| {
        assert ps[i] == e.previews[i];
        ExistingPreviewsFields(existing, first + |files|);
        NoPublicUrl(existing, i);
      } else {
        assert ps[i] == n[i - |existing|];
      }
    }
  }

  /** With distinct ids, a photo without a public URL is not matched by the cleanup's `find`. */
  lemma NoPublicUrl(existing: seq<RemoteStore.Photo>, i: int)
    requires DistinctIds(existing) && 0 <= i < |existing|
    requires RemoteStore.Truthy(existing[i].publicUrl).None?
    ensures !HasPublicUrl(existing, existing[i].id)
  {
    forall k | 0 <= k < |existing| && existing[k].id == existing[i].id
      ensures RemoteStore.Truthy(existing[k].publicUrl).None?
    {
      assert k == i;
    }
  }

  /** `prev.filter((_, i) => i !== k)`: the list without its k-th element, the same list when k is out of range. */
  function Without<T>(s: seq<T>, k: int): (r: seq<T>)
    ensures 0 <= k < |s| ==> r == s[..k] + s[k + 1..]
    ensures !(0 <= k < |s|) ==> r == s
    decreases |s|
  {
    if |s| == 0 then []
    else
      var init := Without(s[..|s| - 1], k);
      var last := s[|s| - 1];
      if |s| - 1 == k then
        assert init == s[..k];
        init
      else
        assert s == s[..|s| - 1] + [last];
        init + [last]
  }

  /** The dialog's state slots. */
  class Editor {
    var date: string
    var note: string
    var newFiles: seq<RemoteStore.File>
    var removedPhotoIds: seq<string>
    var previewUrls: seq<Preview>

    /** The slots' first values: today's date, an empty note, the initial files, nothing removed or shown. */
    constructor(today: Dates.Day, initialFiles: seq<RemoteStore.File>)
      requires today.year >= 0 && Dates.WellFormed(today)
      ensures date == Dates.Format(today) && note == "" && newFiles == initialFiles
      ensures removedPhotoIds == [] && previewUrls == []
    {
      date := Dates.Format(today);
      note := "";
      newFiles := initialFiles;
      removedPhotoIds := [];
      previewUrls := [];
    }

    /**
     * The reset when the dialog opens: an edited memory's date and note and
     * the initial files, or today's date, an empty note and no files; the
     * removal list is emptied either way.
     */
    method Open(initialMemory: Option<LocalDb.Memory>, initialFiles: seq<RemoteStore.File>, today: Dates.Day)
      requires today.year >= 0 && Dates.WellFormed(today)
      modifies this
      ensures initialMemory.Some? ==>
        date == initialMemory.value.date && note == initialMemory.value.note && newFiles == initialFiles
      ensures initialMemory.None? ==> date == Dates.Format(today) && note == "" && newFiles == []
      ensures removedPhotoIds == [] && previewUrls == old(previewUrls)
    {
      if initialMemory.Some? {
        date := initialMemory.value.date;
        note := initialMemory.value.note;
        newFiles := initialFiles;
      } else {
        date := Dates.Format(today);
        note := "";
        newFiles := [];
      }
      removedPhotoIds := [];
    }

    /**
     * The preview effect: an object URL for every new file, then the
     * existing photos' URLs, stored as the preview list (existing first).
     */
    method BuildPreviews(existing: seq<RemoteStore.Photo>, newId: nat -> string, urls: Registry)
      requires urls.Valid()
      modifies this`previewUrls, urls
      ensures previewUrls == Previews(existing, newFiles, newId, old(urls.minted)).previews
      ensures urls.minted == Previews(existing, newFiles, newId, old(urls.minted)).next
      ensures urls.live == old(urls.live) + Range(old(urls.minted), urls.minted)
      ensures urls.Valid()
    {
      var files := newFiles;
      ghost var first := urls.minted;
      var added := MintNewFilePreviews(files, newId, urls);
      ghost var middle := urls.minted;
      var shown := MintExistingPreviews(existing, urls);
      previewUrls := shown + added;
      RangeSplit(first, middle, urls.minted);
      PreviewsJoin(existing, files, newId, first);
    }

    /**
     * The effect's cleanup over the list it built: each entry the rule
     * picks has its URL revoked.
     */
    method Cleanup(built: seq<Preview>, existing: seq<RemoteStore.Photo>, urls: Registry)
      requires urls.Valid()
      modifies urls
      ensures urls.live == old(urls.live) - RevokedTokens(built, existing)
      ensures urls.minted == old(urls.minted) && urls.Valid()
    {
      for i := 0 to |built|
        invariant urls.Valid() && urls.minted == old(urls.minted)
        invariant urls.live == old(urls.live) - RevokedTokens(built[..i], existing)
      {
        assert RevokedTokens(built[..i + 1], existing) ==
          RevokedTokens(built[..i], existing) + (if built[i].url.ObjectUrl? && Revokes(built[i], existing) then {built[i].url.token} else {}) by {
          assert forall k :: 0 <= k < i ==> built[..i + 1][k] == built[..i][k];
          assert built[..i + 1][i] == built[i];
        }
        if Revokes(built[i], existing) {
          urls.Revoke(built[i].url);
        }
      }
      assert built[..|built|] == built;
    }

    /** Picking files appends them, in order, to the new files; an empty pick changes nothing. */
    method HandleFileChange(files: seq<RemoteStore.File>)
      modifies this`newFiles
      ensures newFiles == old(newFiles) + files
    {
      if |files| > 0 {
        newFiles := newFiles + files;
      }
    }

    /**
     * `removeFile(index)`: an existing entry's id is added to the removal
     * list; a new entry drops the new file at `index - existing.length`
     * and nothing else.
     */
    method RemoveFile(index: nat, existing: seq<RemoteStore.Photo>)
      requires index < |previewUrls|
      modifies this`removedPhotoIds, this`newFiles
      ensures previewUrls[index].isExisting ==>
        removedPhotoIds == old(removedPhotoIds) + [previewUrls[index].id] && newFiles == old(newFiles)
      ensures !previewUrls[index].isExisting ==>
        newFiles == Without(old(newFiles), index - |existing|) && removedPhotoIds == old(removedPhotoIds)
    {
      var item := previewUrls[index];
      if item.isExisting {
        removedPhotoIds := removedPhotoIds + [item.id];
      } else {
        newFiles := Without(newFiles, index - |existing|);
      }
    }

    /**
     * `handleSubmit`: nothing happens with no date or with every shown
     * photo removed; otherwise the form goes to `onSave` as it stands.
     */
    function Submit(): (r: Option<SaveRequest>)
      reads this
      ensures r.None? <==> date == "" || |previewUrls| - |removedPhotoIds| == 0
      ensures r.Some? ==>
        && r.value.date == date && r.value.note == note
        && r.value.files == newFiles && r.value.removedPhotoIds == removedPhotoIds
    {
      if date == "" || |previewUrls| - |removedPhotoIds| == 0 then None
      else Some(SaveRequest(date, note, newFiles, removedPhotoIds))
    }
  }

  /** `newFiles.map(...)` as it runs: one `createObjectURL` per file, in order. */
  method MintNewFilePreviews(files: seq<RemoteStore.File>, newId: nat -> string, urls: Registry) returns (added: seq<Preview>)
    requires urls.Valid()
    modifies urls
    ensures added == NewFilePreviews(files, newId, old(urls.minted))
    ensures urls.minted == old(urls.minted) + |files|
    ensures urls.live == old(urls.live) + Range(old(urls.minted), urls.minted)
    ensures urls.Valid()
  {
    var first := urls.minted;
    added := [];
    for j := 0 to |files|
      invariant urls.Valid() && urls.minted == first + j
      invariant added == NewFilePreviews(files[..j], newId, first)
      invariant urls.live == old(urls.live) + Range(first, urls.minted)
    {
      var u := urls.Create();
      added := added + [Preview(newId(u.token), u, false)];
    }
    assert files[..|files|] == files;
  }

  /** `existing.map(...)` as it runs: a `createObjectURL` only for a photo without a public URL. */
  method MintExistingPreviews(existing: seq<RemoteStore.Photo>, urls: Registry) returns (shown: seq<Preview>)
    requires urls.Valid()
    modifies urls
    ensures shown == ExistingPreviews(existing, old(urls.minted)).previews
    ensures urls.minted == ExistingPreviews(existing, old(urls.minted)).next
    ensures urls.live == old(urls.live) + Range(old(urls.minted), urls.minted)
    ensures urls.Valid()
  {
    var first := urls.minted;
    shown := [];
    for i := 0 to |existing|
      invariant urls.Valid()
      invariant shown == ExistingPreviews(existing[..i], first).previews
      invariant urls.minted == ExistingPreviews(existing[..i], first).next
      invariant urls.live == old(urls.live) + Range(first, urls.minted)
    {
      assert existing[..i + 1][..i] == existing[..i];
      var p := existing[i];
      if RemoteStore.Truthy(p.publicUrl).Some? {
        shown := shown + [Preview(p.id, PublicUrl(p.publicUrl.value), true)];
      } else {
        var u := urls.Create();
        shown := shown + [Preview(p.id, u, true)];
      }
    }
    assert existing[..|existing|] == existing;
  }

  /**
   * On a preview list the effect built, the entry at `index` is the
   * existing photo with that position, or the new file at
   * `index - existing.length`, which is in range: `removeFile` drops the
   * file whose preview was chosen.
   */
  lemma RemoveFileTargetsChosen(existing: seq<RemoteStore.Photo>, files: seq<RemoteStore.File>, newId: nat -> string, first: nat, index: nat)
    requires index < |Previews(existing, files, newId, first).previews|
    ensures var item := Previews(existing, files, newId, first).previews[index];
      && (index < |existing| ==> item.isExisting && item.id == existing[index].id)
      && (index >= |existing| ==>
            && !item.isExisting && 0 <= index - |existing| < |files|
            && |Without(files, index - |existing|)| == |files| - 1)
  {
    if index < |existing| {
      ExistingPreviewsFields(existing, first + |files|);
      assert Previews(existing, files, newId, first).previews[index] == ExistingPreviews(existing, first + |files|).previews[index];
    } else {
      assert Previews(existing, files, newId, first).previews[index] == NewFilePreviews(files, newId, first)[index - |existing|];
    }
  }
}

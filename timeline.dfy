/**
 * The memory list's image bookkeeping: per memory, the photos on display
 * with their object URLs (`imageUrls`) and the URLs recorded for later
 * revocation (`urlRefs`); loading a memory's images, the reload of every
 * memory, the unmount cleanup and the cleanup that runs whenever the
 * displayed entries change. A record's keys are kept in insertion order,
 * as JavaScript does. The photo fetch is an oracle: the photos, or `None`
 * when it throws.
 */
module Timeline {
  import opened Wrappers
  import opened ObjectUrls
  import LocalDb

  /** A displayed photo: the record and its object URL. */
  datatype ImageWithUrl = ImageWithUrl(photo: LocalDb.Photo, url: Url)

  /** The object-URL tokens among some URLs. */
  function TokensOf(us: seq<Url>): set<nat>
  {
    set i | 0 <= i < |us| && us[i].ObjectUrl? :: us[i].token
  }

  /** The URLs of some displayed photos, in order. */
  function UrlsOf(shown: seq<ImageWithUrl>): (us: seq<Url>)
    ensures |us| == |shown| && forall i :: 0 <= i < |shown| ==> us[i] == shown[i].url
  {
    seq(|shown|, i requires 0 <= i < |shown| => shown[i].url)
  }

  /** The photos of some displayed entries, in order. */
  function PhotosOf(shown: seq<ImageWithUrl>): (ps: seq<LocalDb.Photo>)
    ensures |ps| == |shown| && forall i :: 0 <= i < |shown| ==> ps[i] == shown[i].photo
  {
    seq(|shown|, i requires 0 <= i < |shown| => shown[i].photo)
  }

  /** The entries of one successful load: photo i with the i-th URL minted from `first`. */
  function WithUrls(photos: seq<LocalDb.Photo>, first: nat): (shown: seq<ImageWithUrl>)
    ensures PhotosOf(shown) == photos
    ensures forall i :: 0 <= i < |photos| ==> shown[i].url == ObjectUrl(first + i)
    ensures TokensOf(UrlsOf(shown)) == Range(first, first + |photos|)
  {
    var shown := seq(|photos|, i requires 0 <= i < |photos| => ImageWithUrl(photos[i], ObjectUrl(first + i)));
    assert forall t :: t in Range(first, first + |photos|) ==> t in TokensOf(UrlsOf(shown)) by {
      forall t | t in Range(first, first + |photos|)
        ensures t in TokensOf(UrlsOf(shown))
      {
        assert UrlsOf(shown)[t - first] == ObjectUrl(t);
      }
    }
    shown
  }

  /** Every token recorded under the listed keys. */
  function AllTokens(refs: map<string, seq<Url>>, keys: seq<string>): (r: set<nat>)
    ensures forall t :: t in r <==> exists i :: 0 <= i < |keys| && keys[i] in refs && t in TokensOf(refs[keys[i]])
    decreases |keys|
  {
    if |keys| == 0 then {}
    else
      var init := keys[..|keys| - 1];
      var k := keys[|keys| - 1];
      var r := AllTokens(refs, init) + (if k in refs then TokensOf(refs[k]) else {});
      assert forall i :: 0 <= i < |init| ==> init[i] == keys[i];
      r
  }

  /** The tokens recorded under a listed key are among all the listed tokens. */
  lemma RecordedTokens(refs: map<string, seq<Url>>, keys: seq<string>, k: string)
    requires k in refs && k in keys
    ensures TokensOf(refs[k]) <= AllTokens(refs, keys)
  {
    var i :| 0 <= i < |keys| && keys[i] == k;
  }

  /** `urls.forEach(url => URL.revokeObjectURL(url))`. */
  method RevokeList(us: seq<Url>, urls: Registry)
    requires urls.Valid()
    modifies urls
    ensures urls.live == old(urls.live) - TokensOf(us)
    ensures urls.minted == old(urls.minted) && urls.Valid()
  {
    for i := 0 to |us|
      invariant urls.Valid() && urls.minted == old(urls.minted)
      invariant urls.live == old(urls.live) - TokensOf(us[..i])
    {
      assert TokensOf(us[..i + 1]) == TokensOf(us[..i]) + (if us[i].ObjectUrl? then {us[i].token} else {}) by {
        assert forall k :: 0 <= k < i ==> us[..i + 1][k] == us[..i][k];
        assert us[..i + 1][i] == us[i];
      }
      urls.Revoke(us[i]);
    }
    assert us[..|us|] == us;
  }

  /** `Object.values(record).forEach(urls => urls.forEach(revoke))`, the keys in record order. */
  method RevokeRecord(refs: map<string, seq<Url>>, keys: seq<string>, urls: Registry)
    requires urls.Valid()
    modifies urls
    ensures urls.live == old(urls.live) - AllTokens(refs, keys)
    ensures urls.minted == old(urls.minted) && urls.Valid()
  {
    for i := 0 to |keys|
      invariant urls.Valid() && urls.minted == old(urls.minted)
      invariant urls.live == old(urls.live) - AllTokens(refs, keys[..i])
    {
      assert keys[..i + 1][..i] == keys[..i];
      if keys[i] in refs {
        RevokeList(refs[keys[i]], urls);
      }
    }
    assert keys[..|keys|] == keys;
  }

  /** `photos.map(photo => ({ ...photo, url: URL.createObjectURL(photo.blob) }))`. */
  method MintUrls(photos: seq<LocalDb.Photo>, urls: Registry) returns (shown: seq<ImageWithUrl>)
    requires urls.Valid()
    modifies urls
    ensures shown == WithUrls(photos, old(urls.minted))
    ensures urls.minted == old(urls.minted) + |photos|
    ensures urls.live == old(urls.live) + Range(old(urls.minted), urls.minted)
    ensures urls.Valid()
  {
    var first := urls.minted;
    shown := [];
    for i := 0 to |photos|
      invariant urls.Valid() && urls.minted == first + i
      invariant shown == WithUrls(photos[..i], first)
      invariant urls.live == old(urls.live) + Range(first, urls.minted)
    {
      var u := urls.Create();
      shown := shown + [ImageWithUrl(photos[i], u)];
    }
    assert photos[..|photos|] == photos;
  }

  /** The URLs of each displayed entry, keyed as the entries are. */
  function UrlRecord(imageUrls: map<string, seq<ImageWithUrl>>): (refs: map<string, seq<Url>>)
    ensures refs.Keys == imageUrls.Keys
    ensures forall k :: k in refs ==> refs[k] == UrlsOf(imageUrls[k])
  {
    map k | k in imageUrls :: UrlsOf(imageUrls[k])
  }

  predicate Distinct(keys: seq<string>)
  {
    forall i, j :: 0 <= i < j < |keys| ==> keys[i] != keys[j]
  }

  class TimelineView {
    /** `imageUrls`: the photos on display per memory, with their URLs. */
    var imageUrls: map<string, seq<ImageWithUrl>>
    /** `urlRefs.current`: the URLs recorded per memory for revocation. */
    var urlRefs: map<string, seq<Url>>
    /** The keys of both records, in insertion order. */
    var order: seq<string>

    /** Both records have the same keys, listed once each, and record the same URLs. */
    ghost predicate Valid()
      reads this
    {
      && Distinct(order)
      && (forall k :: k in order <==> k in imageUrls)
      && urlRefs == UrlRecord(imageUrls)
    }

    constructor()
      ensures Valid() && imageUrls == map[] && urlRefs == map[] && order == []
    {
      imageUrls := map[];
      urlRefs := map[];
      order := [];
    }

    /**
     * `loadImages(memoryId)`: the URLs recorded for the memory are revoked
     * first; when the fetch succeeds, one URL is minted per photo, in order,
     * and both records hold the new URLs for that memory and nothing else
     * changes; when it fails, the records stay as they were.
     */
    method LoadImages(memoryId: string, fetched: Option<seq<LocalDb.Photo>>, urls: Registry)
      requires Valid() && urls.Valid()
      modifies this, urls
      ensures Valid() && urls.Valid()
      ensures var revoked := if memoryId in old(urlRefs) then TokensOf(old(urlRefs)[memoryId]) else {};
        urls.live == (old(urls.live) - revoked) + Range(old(urls.minted), urls.minted)
      ensures fetched.None? ==>
        imageUrls == old(imageUrls) && urlRefs == old(urlRefs) && order == old(order) && urls.minted == old(urls.minted)
      ensures fetched.Some? ==>
        && urls.minted == old(urls.minted) + |fetched.value|
        && imageUrls == old(imageUrls)[memoryId := WithUrls(fetched.value, old(urls.minted))]
        && urlRefs == old(urlRefs)[memoryId := UrlsOf(WithUrls(fetched.value, old(urls.minted)))]
    {
      if memoryId in urlRefs {
        RevokeList(urlRefs[memoryId], urls);
      }
      if fetched.Some? {
        var shown := MintUrls(fetched.value, urls);
        Record(memoryId, shown);
      }
    }

    /** Both records set to the new entries of one memory, the key appended when it is new. */
    method Record(memoryId: string, shown: seq<ImageWithUrl>)
      requires Valid()
      modifies this
      ensures Valid()
      ensures imageUrls == old(imageUrls)[memoryId := shown]
      ensures urlRefs == old(urlRefs)[memoryId := UrlsOf(shown)]
    {
      urlRefs := urlRefs[memoryId := UrlsOf(shown)];
      if memoryId !in imageUrls {
        assert forall i :: 0 <= i < |order| ==> order[i] != memoryId;
        order := order + [memoryId];
      }
      imageUrls := imageUrls[memoryId := shown];
      assert urlRefs == UrlRecord(imageUrls);
    }

    /**
     * The effect on a changed memory list: `loadImages` for every memory in
     * it, in order. Afterwards each memory whose fetch succeeds shows
     * exactly the fetched photos; entries of other memories keep their photos.
     */
    method LoadAll(memories: seq<LocalDb.Memory>, fetch: string -> Option<seq<LocalDb.Photo>>, urls: Registry)
      requires Valid() && urls.Valid()
      modifies this, urls
      ensures Valid() && urls.Valid()
      ensures forall i :: 0 <= i < |memories| && fetch(memories[i].id).Some? ==>
        memories[i].id in imageUrls && PhotosOf(imageUrls[memories[i].id]) == fetch(memories[i].id).value
      ensures forall k :: k in old(imageUrls) && (forall i :: 0 <= i < |memories| ==> memories[i].id != k) ==>
        k in imageUrls && imageUrls[k] == old(imageUrls)[k]
    {
      for i := 0 to |memories|
        invariant Valid() && urls.Valid()
        invariant forall j :: 0 <= j < i && fetch(memories[j].id).Some? ==>
          memories[j].id in imageUrls && PhotosOf(imageUrls[memories[j].id]) == fetch(memories[j].id).value
        invariant forall k :: k in old(imageUrls) && (forall j :: 0 <= j < i ==> memories[j].id != k) ==>
          k in imageUrls && imageUrls[k] == old(imageUrls)[k]
      {
        LoadImages(memories[i].id, fetch(memories[i].id), urls);
      }
    }

    /** The unmount cleanup: every URL recorded for any memory is revoked. */
    method Unmount(urls: Registry)
      requires Valid() && urls.Valid()
      modifies urls
      ensures urls.live == old(urls.live) - AllTokens(urlRefs, order)
      ensures urls.minted == old(urls.minted) && urls.Valid()
    {
      RevokeRecord(urlRefs, order, urls);
    }

    /**
     * A load followed by the cleanup of the previous `imageUrls`, which runs
     * because the displayed entries changed: it revokes the URLs of every
     * previously displayed memory, the other memories' included.
     */
    method LoadAndCleanUp(memoryId: string, fetched: Option<seq<LocalDb.Photo>>, urls: Registry)
      requires Valid() && urls.Valid()
      modifies this, urls
      ensures Valid() && urls.Valid()
      ensures fetched.Some? ==> forall k :: k in old(imageUrls) && k != memoryId ==>
        && k in imageUrls && imageUrls[k] == old(imageUrls)[k]
        && TokensOf(UrlsOf(imageUrls[k])) !! urls.live
        && TokensOf(urlRefs[k]) == TokensOf(UrlsOf(imageUrls[k]))
    {
      var prev := UrlRecord(imageUrls);
      var prevOrder := order;
      LoadImages(memoryId, fetched, urls);
      if fetched.Some? {
        RevokeRecord(prev, prevOrder, urls);
        forall k | k in old(imageUrls) && k != memoryId
          ensures k in imageUrls && imageUrls[k] == old(imageUrls)[k]
          ensures TokensOf(UrlsOf(imageUrls[k])) !! urls.live
          ensures TokensOf(urlRefs[k]) == TokensOf(UrlsOf(imageUrls[k]))
        {
          assert imageUrls[k] == old(imageUrls)[k];
          assert urlRefs[k] == UrlsOf(imageUrls[k]) == prev[k];
          RecordedTokens(prev, prevOrder, k);
        }
      }
    }
  }
}

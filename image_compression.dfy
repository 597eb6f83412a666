/**
 * The upload-side compression rules: when a photo is recompressed, what a
 * failure falls back to, and the batch helper. The compression library is
 * an oracle that, given a file and the options, yields the compressed file
 * or fails (`None`, the library throwing).
 */
module ImageCompression {
  import opened Wrappers
  import opened Blobs

  /** The options object handed to the library. */
  datatype Options = Options(maxSizeMB: real, maxWidthOrHeight: nat, useWebWorker: bool,
                             fileType: string, quality: real)

  const PreviewOptions: Options := Options(0.3, 1920, true, "image/jpeg", 0.85)
  const ThumbnailOptions: Options := Options(0.02, 200, true, "image/jpeg", 0.6)

  /** The library call: the compressed file, or `None` when it throws. */
  type Library = (Blob, Options) -> Option<Blob>

  /** Files below this many bytes are kept as they are (200 KiB). */
  const SkipBelow: nat := 200 * 1024

  /** What `compressImage` hands back: the file, and the percentages passed to `onProgress`. */
  datatype Compressed = Compressed(file: Blob, reported: seq<int>)

  /**
   * `compressImage(file, onProgress)`: a small file is returned untouched,
   * a large one goes through the library with the preview options; a
   * library failure hands back the original file.
   */
  function CompressImage(lib: Library, file: Blob): (r: Compressed)
    ensures Size(file) < SkipBelow ==> r == Compressed(file, [])
    ensures Size(file) >= SkipBelow && lib(file, PreviewOptions).None? ==> r == Compressed(file, [])
    ensures Size(file) >= SkipBelow && lib(file, PreviewOptions).Some? ==>
              r == Compressed(lib(file, PreviewOptions).value, [100])
  {
    if Size(file) < SkipBelow then Compressed(file, [])
    else
      var c := lib(file, PreviewOptions);
      if c.None? then Compressed(file, []) else Compressed(c.value, [100])
  }

  /** `generateThumbnail(file)`: the library with the thumbnail options, or the input itself on failure. */
  function GenerateThumbnail(lib: Library, file: Blob): (r: Blob)
    ensures lib(file, ThumbnailOptions).Some? ==> r == lib(file, ThumbnailOptions).value
    ensures lib(file, ThumbnailOptions).None? ==> r == file
  {
    var c := lib(file, ThumbnailOptions);
    if c.None? then file else c.value
  }

  /** `needsCompression(file)`: strictly more than 200 KiB. */
  predicate NeedsCompression(file: Blob)
  {
    Size(file) > 200 * 1024
  }

  /** Whether `compressImage` hands the file to the library at all. */
  predicate Attempted(file: Blob)
  {
    Size(file) >= SkipBelow
  }

  /** Whatever the library does, `compressImage` returns either its input or the library's preview of it. */
  lemma CompressImageOutcome(lib: Library, file: Blob)
    ensures var r := CompressImage(lib, file).file;
      r == file || (Attempted(file) && lib(file, PreviewOptions) == Some(r))
    ensures CompressImage(lib, file).reported != [] ==> Attempted(file)
  {
  }

  /**
   * The two size tests agree on every file except one of exactly 200 KiB:
   * `compressImage` sends that one to the library while `needsCompression`
   * says it need not be.
   */
  lemma ThresholdMismatch(file: Blob)
    ensures Attempted(file) != NeedsCompression(file) <==> Size(file) == SkipBelow
    ensures Size(file) == SkipBelow ==> Attempted(file) && !NeedsCompression(file)
  {
  }

  /** A file of exactly 200 KiB, the one the two tests disagree on. */
  lemma ThresholdWitness()
    ensures var f := Blob(seq(SkipBelow, i => 0), "image/jpeg");
      Attempted(f) && !NeedsCompression(f)
  {
    var f := Blob(seq(SkipBelow, i => 0), "image/jpeg");
    assert Size(f) == SkipBelow;
  }

  /** The `onProgress(current, total)` calls of a batch of `n` files after `i` of them. */
  function BatchReports(i: nat, n: nat): (r: seq<(nat, nat)>)
    ensures |r| == i
    ensures forall k :: 0 <= k < i ==> r[k] == (k + 1, n)
  {
    if i == 0 then [] else BatchReports(i - 1, n) + [(i, n)]
  }

  /**
   * `compressImages(files, onProgress)`: every file through `compressImage`,
   * in order, one progress report after each.
   */
  method CompressImages(lib: Library, files: seq<Blob>) returns (compressed: seq<Blob>, reports: seq<(nat, nat)>)
    ensures |compressed| == |files|
    ensures forall i :: 0 <= i < |files| ==> compressed[i] == CompressImage(lib, files[i]).file
    ensures reports == BatchReports(|files|, |files|)
  {
    compressed := [];
    reports := [];
    var i := 0;
    while i < |files|
      invariant 0 <= i <= |files|
      invariant |compressed| == i
      invariant forall k :: 0 <= k < i ==> compressed[k] == CompressImage(lib, files[k]).file
      invariant reports == BatchReports(i, |files|)
    {
      var c := CompressImage(lib, files[i]);
      compressed := compressed + [c.file];
      reports := reports + [(i + 1, |files|)];
      i := i + 1;
    }
  }

  /** Each batch result is the file it stands for or the library's preview of that very file. */
  lemma CompressImagesPositional(lib: Library, files: seq<Blob>, compressed: seq<Blob>)
    requires |compressed| == |files|
    requires forall i :: 0 <= i < |files| ==> compressed[i] == CompressImage(lib, files[i]).file
    ensures forall i :: 0 <= i < |files| ==>
      compressed[i] == files[i] || lib(files[i], PreviewOptions) == Some(compressed[i])
  {
    forall i | 0 <= i < |files|
      ensures compressed[i] == files[i] || lib(files[i], PreviewOptions) == Some(compressed[i])
    {
      CompressImageOutcome(lib, files[i]);
    }
  }

  datatype Versions = Versions(preview: Blob, thumbnail: Blob)

  /**
   * `generateImageVersions(file)`: the preview and the thumbnail, both made
   * from the original file; neither is derived from the other.
   */
  function GenerateImageVersions(lib: Library, file: Blob): (r: Versions)
    ensures r.preview == file || lib(file, PreviewOptions) == Some(r.preview)
    ensures r.thumbnail == file || lib(file, ThumbnailOptions) == Some(r.thumbnail)
  {
    CompressImageOutcome(lib, file);
    Versions(CompressImage(lib, file).file, GenerateThumbnail(lib, file))
  }
}

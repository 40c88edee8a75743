/**
 * The server's media pipeline for uploads (src/media_processor.rs): the type
 * of an uploaded file is detected from its header, videos get a thumbnail,
 * large images whose detected extension is not `jpeg` or `gif` are re-encoded
 * as JPEG and the smaller of the two files is kept, and `commit` moves the kept
 * file (and thumbnail) under the media directory with a name built from the
 * post's ids.
 *
 * The header classifier, the file sizes and the outcome of each subprocess
 * (ffprobe, ffmpeg, vips) are inputs.
 */
module MediaProcessor {
  import opened Wrappers
  import opened Files

  /** Bytes read from the start of the file for type detection. */
  const HeaderSize: nat := 0xFF
  /** Images up to this size are stored as uploaded. */
  const CompressionThreshold: nat := 3 * 1024 * 1024
  /** Extensions that are never re-encoded. */
  const CompressionBlacklist: seq<string> := ["jpeg", "gif"]
  const JpegQuality: nat := 90

  /** `infer`'s matcher type, collapsed to the two the pipeline handles and the rest. */
  datatype Matcher = Video | Image | Other

  /** What `infer` reports for a header: its matcher, mime type and extension. */
  datatype FileType = FileType(matcher: Matcher, mime: string, extension: string)

  /** Everything the pipeline learns from the outside world about one upload. */
  datatype Probe = Probe(
    fileSize: nat,              // length of the uploaded temporary file
    inferred: Option<FileType>, // `infer` on the first HeaderSize bytes
    durationOk: bool,           // ffprobe printed a parsable duration
    ffmpegOk: bool,             // ffmpeg wrote the thumbnail
    vipsOk: bool,               // vips wrote the re-encoded JPEG
    compressedSize: nat)        // length of the re-encoded file

  /** Which temporary file holds the media that is kept. */
  datatype Kept = Uploaded | Compressed

  /** `MediaProcessorResult`: the kept file, whether a thumbnail exists, and the stored type. */
  datatype MediaResult = MediaResult(file: Kept, thumb: bool, mime: string, extension: string, original: bool)

  datatype MediaError =
    | HeaderUnreadable   // `read_exact` could not fill the header buffer
    | UnknownType        // `infer` recognised no signature
    | Unsupported        // neither a video nor an image
    | DurationFailed     // ffprobe failed or printed no duration
    | ThumbnailFailed    // ffmpeg failed
    | CompressionFailed  // vips (magick in the downloader) failed
    | MoveFailed         // `move_file` could neither rename nor copy

  /** `file_type`: a full header must be readable and must carry a known signature. */
  function DetectType(p: Probe): (r: Result<FileType, MediaError>)
    ensures r.Ok? <==> p.fileSize >= HeaderSize && p.inferred.Some?
    ensures r.Ok? ==> r.value == p.inferred.value
    ensures p.fileSize < HeaderSize ==> r == Err(HeaderUnreadable)
  {
    if p.fileSize < HeaderSize then Err(HeaderUnreadable)
    else if p.inferred.None? then Err(UnknownType)
    else Ok(p.inferred.value)
  }

  /** `process_video`: the upload is kept as is, with a thumbnail taken by ffmpeg. */
  function ProcessVideo(t: FileType, p: Probe): (r: Result<MediaResult, MediaError>)
    ensures r.Ok? <==> p.durationOk && p.ffmpegOk
    ensures !p.durationOk ==> r == Err(DurationFailed)
    ensures r.Err? && p.durationOk ==> r == Err(ThumbnailFailed)
    ensures r.Ok? ==> r.value.file == Uploaded && r.value.thumb && r.value.original
    ensures r.Ok? ==> r.value.mime == t.mime && r.value.extension == t.extension
  {
    if !p.durationOk then Err(DurationFailed)
    else if !p.ffmpegOk then Err(ThumbnailFailed)
    else Ok(MediaResult(Uploaded, true, t.mime, t.extension, true))
  }

  /** The condition under which `process_image` hands the image to `compress_image`. */
  predicate SentToCompression(t: FileType, size: nat)
    ensures SentToCompression(t, size) <==> t.extension != "jpeg" && t.extension != "gif" && size > 3_145_728
  {
    t.extension !in CompressionBlacklist && size > CompressionThreshold
  }

  /** `process_image`. */
  function ProcessImage(t: FileType, p: Probe): (r: Result<MediaResult, MediaError>)
    ensures r.Err? <==> SentToCompression(t, p.fileSize) && !p.vipsOk
    ensures r.Ok? ==> !r.value.thumb
    ensures !SentToCompression(t, p.fileSize) ==> r == Ok(MediaResult(Uploaded, false, t.mime, t.extension, true))
    ensures r.Ok? && r.value.file == Compressed ==> SentToCompression(t, p.fileSize) && p.compressedSize < p.fileSize
  {
    if SentToCompression(t, p.fileSize) then CompressImage(t, p)
    else Ok(MediaResult(Uploaded, false, t.mime, t.extension, true))
  }

  /** `compress_image`: the JPEG is kept only when it is strictly smaller. */
  function CompressImage(t: FileType, p: Probe): (r: Result<MediaResult, MediaError>)
    ensures r.Err? <==> !p.vipsOk
    ensures r.Err? ==> r.error == CompressionFailed
    ensures r.Ok? ==> !r.value.thumb && (r.value.file == Compressed <==> p.compressedSize < p.fileSize)
    ensures r.Ok? ==> (r.value.original <==> r.value.file == Uploaded)
    ensures r.Ok? && r.value.file == Compressed ==> r.value.mime == "image/jpeg" && r.value.extension == "jpeg"
    ensures r.Ok? && r.value.file == Uploaded ==> r.value.mime == t.mime && r.value.extension == t.extension
  {
    if !p.vipsOk then Err(CompressionFailed)
    else if p.compressedSize < p.fileSize then Ok(MediaResult(Compressed, false, "image/jpeg", "jpeg", false))
    else Ok(MediaResult(Uploaded, false, t.mime, t.extension, true))
  }

  /** `MediaProcessor::process`. */
  function Process(p: Probe): (r: Result<MediaResult, MediaError>)
    ensures r.Ok? ==> DetectType(p).Ok? && DetectType(p).value.matcher != Other
  {
    match DetectType(p)
    case Err(e) => Err(e)
    case Ok(t) =>
      match t.matcher
      case Video => ProcessVideo(t, p)
      case Image => ProcessImage(t, p)
      case Other => Err(Unsupported)
  }

  /** Content that is neither a video nor an image is rejected. */
  lemma OtherKindsRejected(p: Probe)
    requires DetectType(p).Ok? && DetectType(p).value.matcher == Other
    ensures Process(p) == Err(Unsupported)
  {
  }

  /**
   * A video is stored as uploaded, original, with a thumbnail and its detected
   * type; it fails exactly when the duration or the thumbnail cannot be made.
   */
  lemma VideoResult(p: Probe)
    requires DetectType(p).Ok? && DetectType(p).value.matcher == Video
    ensures var t := DetectType(p).value;
      && (Process(p).Ok? <==> p.durationOk && p.ffmpegOk)
      && (Process(p).Ok? ==> Process(p).value == MediaResult(Uploaded, true, t.mime, t.extension, true))
  {
  }

  /**
   * An image not sent to compression is kept as uploaded with its detected
   * type; one sent to compression fails only if vips fails, and becomes a
   * JPEG exactly when that is strictly smaller (a tie keeps the upload).
   */
  lemma ImageResult(p: Probe)
    requires DetectType(p).Ok? && DetectType(p).value.matcher == Image
    ensures var t := DetectType(p).value; var r := Process(p);
      && (!r.Ok? <==> SentToCompression(t, p.fileSize) && !p.vipsOk)
      && (r.Ok? ==> !r.value.thumb)
      && (r.Ok? ==> (r.value.file == Compressed <==> SentToCompression(t, p.fileSize) && p.compressedSize < p.fileSize))
      && (r.Ok? && r.value.file == Compressed ==> r.value.mime == "image/jpeg" && r.value.extension == "jpeg" && !r.value.original)
      && (r.Ok? && r.value.file == Uploaded ==> r.value.mime == t.mime && r.value.extension == t.extension && r.value.original)
  {
  }

  /** A stored file is marked not original exactly when it is the re-encoded JPEG. */
  lemma OriginalIffUploadKept(p: Probe)
    requires Process(p).Ok?
    ensures Process(p).value.original <==> Process(p).value.file == Uploaded
    ensures Process(p).value.thumb <==> DetectType(p).value.matcher == Video
  {
  }

  /** Images whose detected extension is `jpeg` or `gif` are never re-encoded, whatever their size. */
  lemma BlacklistNeverCompressed(p: Probe)
    requires DetectType(p).Ok? && DetectType(p).value.matcher == Image
    requires DetectType(p).value.extension in CompressionBlacklist
    ensures Process(p) == Ok(MediaResult(Uploaded, false, DetectType(p).value.mime, DetectType(p).value.extension, true))
  {
  }

  /** `base/{id:07}_{external_id}.{extension}`. */
  function MainPath(base: Path, id: int, externalId: int, extension: string): (r: Path)
    ensures |r| == |base| + 1 && r[..|base|] == base
    ensures ParsePaddedName(r[|base|]) == Some((id, externalId, extension))
  {
    PaddedNameRoundTrip(id, externalId, extension);
    JoinPath(base, PaddedName(id, externalId, extension))
  }

  /** `base/.thumbs/<file name>.jpeg`. */
  function ThumbPath(base: Path, fileName: string): (r: Path)
    ensures r == base + [ThumbsDir, fileName + ".jpeg"]
  {
    JoinPath(JoinPath(base, ThumbsDir), fileName + ".jpeg")
  }

  /** The thumbnail never lands on the main file's path. */
  lemma ThumbPathDiffers(base: Path, id: int, externalId: int, extension: string)
    ensures ThumbPath(base, PaddedName(id, externalId, extension)) != MainPath(base, id, externalId, extension)
  {
    var t := ThumbPath(base, PaddedName(id, externalId, extension));
    assert |t| == |base| + 2;
  }

  /**
   * `MediaProcessorResult::commit`: moves the kept file to its final name,
   * then the thumbnail, if there is one, into `.thumbs`. The first failed move
   * ends the commit with an error. `mainMove` and `thumbMove` say how each
   * `move_file` goes.
   */
  method Commit(disk: Disk, base: Path, id: int, externalId: int, r: MediaResult,
                uploadTmp: Path, compressedTmp: Path, thumbTmp: Path,
                mainMove: MoveOutcome, thumbMove: MoveOutcome) returns (ok: bool)
    requires thumbTmp != uploadTmp && thumbTmp != compressedTmp
    requires thumbTmp != MainPath(base, id, externalId, r.extension)
    requires var thumb := ThumbPath(base, PaddedName(id, externalId, r.extension));
      uploadTmp != thumb && compressedTmp != thumb
    modifies disk
    ensures var src := if r.file == Uploaded then uploadTmp else compressedTmp;
      var main := MainPath(base, id, externalId, r.extension);
      var thumb := ThumbPath(base, PaddedName(id, externalId, r.extension));
      && (ok <==> src in old(disk.files) && mainMove != CopyFailed
                  && (r.thumb ==> thumbTmp in old(disk.files) && thumbMove != CopyFailed))
      && (ok ==> main in disk.files && disk.files[main] == old(disk.files)[src])
      && (ok && r.thumb ==> thumb in disk.files && disk.files[thumb] == old(disk.files)[thumbTmp])
      && (!r.thumb ==> (thumb in disk.files <==> thumb in old(disk.files)))
  {
    var src := if r.file == Uploaded then uploadTmp else compressedTmp;
    var name := PaddedName(id, externalId, r.extension);
    ThumbPathDiffers(base, id, externalId, r.extension);
    ok := MoveKept(disk, src, JoinPath(base, name), r.thumb, thumbTmp, ThumbPath(base, name), mainMove, thumbMove);
  }

  /** The two moves of `commit` once the destination paths are known: the main file, then the thumbnail if any. */
  method MoveKept(disk: Disk, src: Path, main: Path, hasThumb: bool, thumbTmp: Path, thumb: Path,
                  mainMove: MoveOutcome, thumbMove: MoveOutcome) returns (ok: bool)
    requires main != thumb && thumbTmp != src && thumbTmp != main && src != thumb
    modifies disk
    ensures ok <==> src in old(disk.files) && mainMove != CopyFailed
                    && (hasThumb ==> thumbTmp in old(disk.files) && thumbMove != CopyFailed)
    ensures ok ==> main in disk.files && disk.files[main] == old(disk.files)[src]
    ensures ok && hasThumb ==> thumb in disk.files && disk.files[thumb] == old(disk.files)[thumbTmp]
    ensures !hasThumb ==> (thumb in disk.files <==> thumb in old(disk.files))
  {
    ok := disk.MoveFile(src, main, mainMove);
    if !ok {
      return;
    }
    if hasThumb {
      ghost var afterMain := disk.files;
      assert thumbTmp in afterMain <==> thumbTmp in old(disk.files);
      ok := disk.MoveFile(thumbTmp, thumb, thumbMove);
    }
  }
}

/**
 * The downloader's image placement (src/downloader/image_file.rs), a third
 * revision of the media decision: `ImageFile` owns the final path of a
 * downloaded image and deletes it when dropped unless it was committed.
 * Images of 3 MiB or more are re-encoded as JPEG whatever their format;
 * smaller ones are moved into place with the guessed type.
 */
module DownloaderImageFile {
  import opened Wrappers
  import opened Files
  import DMP = DownloaderMediaProcessor

  const CompressionThreshold: nat := 3 * 1024 * 1024
  const JpegQuality: nat := 90
  /** Header bytes `image_info` reads before guessing the format. */
  const InfoHeaderSize: nat := 64

  datatype ImageError =
    | HeaderUnreadable  // fewer than 64 bytes
    | UnknownFormat     // `image::guess_format` failed
    | NoExtension       // the format has no associated extension
    | MetadataFailed    // the temporary file's size could not be read
    | MoveFailed        // rename and copy both failed
    | EncodeFailed      // decoding or JPEG encoding failed

  /**
   * `image_info`: 64 header bytes are needed, and a recognised format with at
   * least one extension; its mime type and first extension are returned.
   * `guessed` is what `guess_format` recognises: a mime type and the format's extensions.
   */
  function ImageInfo(headerLen: nat, guessed: Option<(string, seq<string>)>): (r: Result<(string, string), ImageError>)
    ensures r.Ok? <==> headerLen >= InfoHeaderSize && guessed.Some? && |guessed.value.1| >= 1
    ensures r.Ok? ==> r.value == (guessed.value.0, guessed.value.1[0])
  {
    if headerLen < InfoHeaderSize then Err(HeaderUnreadable)
    else if guessed.None? then Err(UnknownFormat)
    else if |guessed.value.1| == 0 then Err(NoExtension)
    else Ok((guessed.value.0, guessed.value.1[0]))
  }

  class ImageFile {
    const disk: Disk
    const dirPath: Path
    const postId: int
    const sortId: int
    var extension: Option<string>
    var mime: Option<string>
    var original: bool
    var shouldCleanup: bool

    /** The struct literal at the top of `ImageFile::new`. */
    constructor (disk: Disk, dirPath: Path, postId: int, sortId: int)
      ensures this.disk == disk && this.dirPath == dirPath && this.postId == postId && this.sortId == sortId
      ensures original && shouldCleanup && extension.None? && mime.None?
    {
      this.disk, this.dirPath, this.postId, this.sortId := disk, dirPath, postId, sortId;
      original, shouldCleanup := true, true;
      extension, mime := None, None;
    }

    /** `file_name`: needs the extension; the same name as the other downloader revision gives. */
    function FileName(): (r: string)
      requires extension.Some?
      reads this
      ensures r == DMP.FileName(sortId, postId, extension.value)
      ensures ParsePaddedName(r) == Some((sortId, postId, extension.value))
    {
      PaddedNameRoundTrip(sortId, postId, extension.value);
      PaddedName(sortId, postId, extension.value)
    }

    function ImagePath(): Path
      requires extension.Some?
      reads this
    {
      JoinPath(dirPath, FileName())
    }

    /** `mime`: needs the mime type to have been set. */
    function Mime(): (m: string)
      requires mime.Some?
      reads this
      ensures Some(m) == mime
    {
      mime.value
    }

    function IsOriginal(): bool
      reads this
    {
      original
    }

    /**
     * `cleanup`: when armed, deletes the final image path and disarms. An
     * armed cleanup before the extension is known reaches the `expect` in
     * `file_name` and panics; that outcome is `panicked`.
     */
    method Cleanup() returns (panicked: bool)
      modifies this, disk
      ensures panicked <==> old(shouldCleanup) && extension.None?
      ensures extension == old(extension) && mime == old(mime) && original == old(original)
      ensures !old(shouldCleanup) ==> shouldCleanup == old(shouldCleanup) && disk.files == old(disk.files)
      ensures old(shouldCleanup) && !panicked ==> !shouldCleanup && disk.files == old(disk.files) - {ImagePath()}
      ensures panicked ==> disk.files == old(disk.files)
      ensures extension.Some? ==> ImagePath() == old(ImagePath())
    {
      panicked := false;
      if shouldCleanup {
        if extension.None? {
          return true;
        }
        disk.RemoveFile(ImagePath());
        shouldCleanup := false;
      }
    }

    /** `commit`: disarms, then the value is dropped, which deletes nothing. */
    method Commit()
      modifies this, disk
      ensures !shouldCleanup && disk.files == old(disk.files)
      ensures extension == old(extension) && mime == old(mime) && original == old(original)
    {
      shouldCleanup := false;
      var _ := Cleanup();
    }

    /** `compress_and_save`: the type is set to JPEG first, then the re-encoded image is written. */
    method CompressAndSave(encodeOk: bool, jpeg: Content) returns (r: Result<(), ImageError>)
      modifies this, disk
      ensures extension == Some("jpeg") && mime == Some("image/jpeg") && !original
      ensures shouldCleanup == old(shouldCleanup)
      ensures r.Ok? <==> encodeOk
      ensures r.Ok? ==> disk.files == old(disk.files)[ImagePath() := jpeg]
      ensures r.Err? ==> r.error == EncodeFailed && disk.files == old(disk.files)
    {
      extension := Some("jpeg");
      mime := Some("image/jpeg");
      original := false;
      if !encodeOk {
        return Err(EncodeFailed);
      }
      disk.files := disk.files[ImagePath() := jpeg];
      r := Ok(());
    }

    /** `move_image`: rename, falling back to a copy. */
    method MoveImage(tempPath: Path, how: MoveOutcome) returns (r: Result<(), ImageError>)
      requires extension.Some?
      modifies disk
      ensures r.Ok? <==> tempPath in old(disk.files) && how != CopyFailed
      ensures r.Ok? && how == Renamed ==> disk.files == (old(disk.files) - {tempPath})[ImagePath() := old(disk.files)[tempPath]]
      ensures r.Ok? && how == Copied ==> disk.files == old(disk.files)[ImagePath() := old(disk.files)[tempPath]]
      ensures r.Err? ==> r.error == MoveFailed && disk.files == old(disk.files)
    {
      var ok := disk.MoveFile(tempPath, ImagePath(), how);
      r := if ok then Ok(()) else Err(MoveFailed);
    }

    /**
     * The rest of `ImageFile::new` once the type and size are known: small
     * images are moved into place with the guessed type, large ones are
     * re-encoded; a failure deletes the final path and disarms.
     */
    method Place(tempPath: Path, m: string, ext: string, size: nat,
                 how: MoveOutcome, encodeOk: bool, jpeg: Content) returns (r: Result<(), ImageError>)
      requires shouldCleanup
      modifies this, disk
      ensures size < CompressionThreshold ==>
        && extension == Some(ext) && mime == Some(m) && original == old(original)
        && (r.Ok? <==> tempPath in old(disk.files) && how != CopyFailed)
        && (r.Ok? ==> disk.files == (if how == Renamed then old(disk.files) - {tempPath} else old(disk.files))
                                      [ImagePath() := old(disk.files)[tempPath]])
      ensures size >= CompressionThreshold ==>
        && extension == Some("jpeg") && mime == Some("image/jpeg") && !original
        && (r.Ok? <==> encodeOk)
        && (r.Ok? ==> disk.files == old(disk.files)[ImagePath() := jpeg])
      ensures r.Ok? ==> shouldCleanup
      ensures r.Err? ==> !shouldCleanup && disk.files == old(disk.files) - {ImagePath()}
    {
      if size < CompressionThreshold {
        r := PlaceOriginal(tempPath, m, ext, how);
      } else {
        r := PlaceCompressed(encodeOk, jpeg);
      }
    }

    /** The small-image branch of `ImageFile::new`: the guessed type, then `move_image`. */
    method PlaceOriginal(tempPath: Path, m: string, ext: string, how: MoveOutcome) returns (r: Result<(), ImageError>)
      requires shouldCleanup
      modifies this, disk
      ensures extension == Some(ext) && mime == Some(m) && original == old(original)
      ensures r.Ok? <==> tempPath in old(disk.files) && how != CopyFailed
      ensures r.Ok? ==> shouldCleanup && disk.files == (if how == Renamed then old(disk.files) - {tempPath} else old(disk.files))
                                                         [ImagePath() := old(disk.files)[tempPath]]
      ensures r.Err? ==> !shouldCleanup && disk.files == old(disk.files) - {ImagePath()}
    {
      extension := Some(ext);
      mime := Some(m);
      r := MoveOrDiscard(tempPath, how);
    }

    /** `move_image` followed, on failure, by the drop's cleanup of the final path. */
    method MoveOrDiscard(tempPath: Path, how: MoveOutcome) returns (r: Result<(), ImageError>)
      requires shouldCleanup && extension.Some?
      modifies this, disk
      ensures extension == old(extension) && mime == old(mime) && original == old(original)
      ensures r.Ok? <==> tempPath in old(disk.files) && how != CopyFailed
      ensures r.Ok? ==> shouldCleanup && disk.files == (if how == Renamed then old(disk.files) - {tempPath} else old(disk.files))
                                                         [ImagePath() := old(disk.files)[tempPath]]
      ensures r.Err? ==> !shouldCleanup && disk.files == old(disk.files) - {ImagePath()}
    {
      r := MoveImage(tempPath, how);
      if r.Err? {
        var _ := Cleanup();
      }
    }

    /** The large-image branch of `ImageFile::new`: `compress_and_save`. */
    method PlaceCompressed(encodeOk: bool, jpeg: Content) returns (r: Result<(), ImageError>)
      requires shouldCleanup
      modifies this, disk
      ensures extension == Some("jpeg") && mime == Some("image/jpeg") && !original
      ensures r.Ok? <==> encodeOk
      ensures r.Ok? ==> shouldCleanup && disk.files == old(disk.files)[ImagePath() := jpeg]
      ensures r.Err? ==> !shouldCleanup && disk.files == old(disk.files) - {ImagePath()}
    {
      r := CompressAndSave(encodeOk, jpeg);
      if r.Err? {
        var _ := Cleanup();
      }
    }
  }

  /**
   * `ImageFile::new` as written: the value is built before `image_info` runs,
   * so when `image_info` or `metadata` fails the early return drops an armed
   * value that has no extension, and the drop panics (`size` is `None` when
   * `metadata` fails). Other failures drop a value whose
   * final path is known, which is then deleted.
   */
  method NewAsWritten(disk: Disk, dirPath: Path, postId: int, sortId: int, tempPath: Path,
                      info: Result<(string, string), ImageError>, size: Option<nat>,
                      how: MoveOutcome, encodeOk: bool, jpeg: Content)
    returns (image: ImageFile, r: Result<(), ImageError>, panicked: bool)
    modifies disk
    ensures fresh(image) && image.disk == disk
    ensures panicked <==> info.Err? || size.None?
    ensures panicked ==> r.Err? && disk.files == old(disk.files)
    ensures !panicked && size.value < CompressionThreshold ==>
      && image.extension == Some(info.value.1) && image.mime == Some(info.value.0) && image.original
      && (r.Ok? <==> tempPath in old(disk.files) && how != CopyFailed)
      && (r.Ok? ==> disk.files == (if how == Renamed then old(disk.files) - {tempPath} else old(disk.files))
                                    [image.ImagePath() := old(disk.files)[tempPath]])
    ensures !panicked && size.value >= CompressionThreshold ==>
      && image.extension == Some("jpeg") && image.mime == Some("image/jpeg") && !image.original
      && (r.Ok? <==> encodeOk)
      && (r.Ok? ==> disk.files == old(disk.files)[image.ImagePath() := jpeg])
    ensures r.Ok? ==> image.shouldCleanup
    ensures !panicked && r.Err? ==> !image.shouldCleanup && disk.files == old(disk.files) - {image.ImagePath()}
  {
    image := new ImageFile(disk, dirPath, postId, sortId);
    if info.Err? || size.None? {
      r := Err(if info.Err? then info.error else MetadataFailed);
      panicked := image.Cleanup();
      return;
    }
    panicked := false;
    var (m, ext) := info.value;
    r := image.Place(tempPath, m, ext, size.value, how, encodeOk, jpeg);
  }

  /** The panic exhibited: a header shorter than 64 bytes makes `ImageFile::new` panic. */
  method NewPanicsOnShortHeader(disk: Disk) returns (panicked: bool)
    modifies disk
    ensures panicked
  {
    var info := ImageInfo(10, None);
    var _, _, p := NewAsWritten(disk, [], 1, 1, ["tmp"], info, Some(10), Renamed, true, 0);
    panicked := p;
  }

  /**
   * `ImageFile::new` as evidently intended: an `image_info` or `metadata`
   * failure is returned as an error with nothing to clean up; everything
   * else is as written.
   */
  method New(disk: Disk, dirPath: Path, postId: int, sortId: int, tempPath: Path,
             info: Result<(string, string), ImageError>, size: Option<nat>,
             how: MoveOutcome, encodeOk: bool, jpeg: Content)
    returns (image: ImageFile, r: Result<(), ImageError>)
    modifies disk
    ensures fresh(image) && image.disk == disk
    ensures info.Err? ==> r == Err(info.error) && disk.files == old(disk.files)
    ensures info.Ok? && size.None? ==> r == Err(MetadataFailed) && disk.files == old(disk.files)
    ensures info.Ok? && size.Some? && size.value < CompressionThreshold ==>
      && image.extension == Some(info.value.1) && image.mime == Some(info.value.0) && image.original
      && (r.Ok? <==> tempPath in old(disk.files) && how != CopyFailed)
      && (r.Ok? ==> disk.files == (if how == Renamed then old(disk.files) - {tempPath} else old(disk.files))
                                    [image.ImagePath() := old(disk.files)[tempPath]])
    ensures info.Ok? && size.Some? && size.value >= CompressionThreshold ==>
      && image.extension == Some("jpeg") && image.mime == Some("image/jpeg") && !image.original
      && (r.Ok? <==> encodeOk)
      && (r.Ok? ==> disk.files == old(disk.files)[image.ImagePath() := jpeg])
    ensures r.Ok? ==> image.shouldCleanup
    ensures info.Ok? && size.Some? && r.Err? ==> !image.shouldCleanup && disk.files == old(disk.files) - {image.ImagePath()}
    ensures r.Err? ==> !image.shouldCleanup
    ensures !image.shouldCleanup || image.extension.Some?
  {
    image := new ImageFile(disk, dirPath, postId, sortId);
    if info.Err? || size.None? {
      image.shouldCleanup := false;
      return image, Err(if info.Err? then info.error else MetadataFailed);
    }
    var (m, ext) := info.value;
    r := image.Place(tempPath, m, ext, size.value, how, encodeOk, jpeg);
  }

  /** A second cleanup deletes nothing: the first one disarmed the value. */
  method CleanupTwice(image: ImageFile) returns (second: bool)
    requires image.extension.Some?
    modifies image, image.disk
    ensures !second && !image.shouldCleanup && image.extension == old(image.extension)
    ensures image.disk.files == old(image.disk.files) - (if old(image.shouldCleanup) then {image.ImagePath()} else {})
  {
    var _ := image.Cleanup();
    ghost var between := image.disk.files;
    second := image.Cleanup();
    assert image.disk.files == between;
  }
}

/**
 * The downloader's media pipeline (src/downloader/media_processor.rs). It
 * places a downloaded file directly under its final name. Every path it
 * creates is registered with a `FileCleaner`, which deletes them all when
 * it is dropped, unless the result has been committed first.
 *
 * This revision differs from the upload pipeline: a re-encoded image is
 * always kept, with no size comparison, and the re-encoding is done by
 * `magick`, writing straight to the final path.
 */
module DownloaderMediaProcessor {
  import opened Wrappers
  import opened Seqs
  import opened Files
  import MP = MediaProcessor

  /** `file_name(sort_id, post_id, extension)`: the name reads back as the sort id, the post id and the extension. */
  function FileName(sortId: int, postId: int, extension: string): (r: string)
    ensures ParsePaddedName(r) == Some((sortId, postId, extension))
  {
    PaddedNameRoundTrip(sortId, postId, extension);
    PaddedName(sortId, postId, extension)
  }

  /** The paths a failed or abandoned download must not leave behind, and whether to delete them. */
  class FileCleaner {
    const disk: Disk
    var cleanupPaths: seq<Path>
    var shouldCleanup: bool

    /** `FileCleaner::new`: nothing registered, cleanup armed. */
    constructor (disk: Disk)
      ensures this.disk == disk && cleanupPaths == [] && shouldCleanup
    {
      this.disk := disk;
      cleanupPaths := [];
      shouldCleanup := true;
    }

    /** `add`: registers one more path. */
    method Add(path: Path)
      modifies this
      ensures cleanupPaths == old(cleanupPaths) + [path] && shouldCleanup == old(shouldCleanup)
    {
      cleanupPaths := cleanupPaths + [path];
    }

    /** `cleanup`: when armed, removes every registered path (a failed removal is ignored). */
    method Cleanup()
      modifies disk
      ensures disk.files == old(disk.files) - (if shouldCleanup then ToSet(cleanupPaths) else {})
    {
      if shouldCleanup {
        var paths := cleanupPaths;
        var i := 0;
        while i < |paths|
          invariant 0 <= i <= |paths|
          invariant disk.files == old(disk.files) - ToSet(paths[..i])
        {
          assert paths[..i + 1] == paths[..i] + [paths[i]];
          ToSetAppend(paths[..i], [paths[i]]);
          disk.RemoveFile(paths[i]);
          i := i + 1;
        }
        assert paths[..i] == paths;
      }
    }

    /** Dropping the cleaner runs `cleanup`. */
    method Drop()
      modifies disk
      ensures disk.files == old(disk.files) - (if shouldCleanup then ToSet(cleanupPaths) else {})
    {
      Cleanup();
    }

    /** `commit` disarms the cleaner and drops it: nothing is deleted. */
    method Commit()
      modifies this, disk
      ensures !shouldCleanup && cleanupPaths == old(cleanupPaths)
      ensures disk.files == old(disk.files)
    {
      shouldCleanup := false;
      Drop();
    }
  }

  /** The outside world's answers for one downloaded file. */
  datatype Probe = Probe(
    fileSize: nat,
    inferred: Option<MP.FileType>,
    durationOk: bool,      // ffprobe printed a parsable duration
    ffmpegOk: bool,        // ffmpeg wrote the thumbnail
    magickOk: bool,        // magick wrote the JPEG to the final path
    move: MoveOutcome,     // how `move_file` from the temporary path goes
    thumbContent: Content, // what ffmpeg writes
    jpegContent: Content)  // what magick writes

  /** `MediaProcessorResult` without its cleaner. */
  datatype Stored = Stored(fileName: string, mime: string, original: bool)

  /** The condition under which `process_image` calls `compress_image`. */
  predicate Compresses(t: MP.FileType, size: nat)
    ensures Compresses(t, size) <==> MP.SentToCompression(t, size)
  {
    t.extension !in MP.CompressionBlacklist && size > MP.CompressionThreshold
  }

  /** The final name of the stored file: a re-encoded image is always `jpeg`. */
  function FinalName(sortId: int, postId: int, t: MP.FileType, size: nat): (r: string)
    ensures ParsePaddedName(r) == Some((sortId, postId, if t.matcher == MP.Image && Compresses(t, size) then "jpeg" else t.extension))
  {
    if t.matcher == MP.Image && Compresses(t, size) then FileName(sortId, postId, "jpeg")
    else FileName(sortId, postId, t.extension)
  }

  /** What `process` returns, read off the probe. */
  function Expected(sortId: int, postId: int, p: Probe): (r: Result<Stored, MP.MediaError>)
    ensures r.Ok? ==> p.inferred.Some? && p.inferred.value.matcher != MP.Other
  {
    if p.fileSize < MP.HeaderSize then Err(MP.HeaderUnreadable)
    else if p.inferred.None? then Err(MP.UnknownType)
    else
      var t := p.inferred.value;
      var name := FinalName(sortId, postId, t, p.fileSize);
      match t.matcher
      case Other => Err(MP.Unsupported)
      case Video =>
        if !p.durationOk then Err(MP.DurationFailed)
        else if !p.ffmpegOk then Err(MP.ThumbnailFailed)
        else if p.move == CopyFailed then Err(MP.MoveFailed)
        else Ok(Stored(name, t.mime, true))
      case Image =>
        if Compresses(t, p.fileSize) then
          if !p.magickOk then Err(MP.CompressionFailed) else Ok(Stored(name, "image/jpeg", false))
        else if p.move == CopyFailed then Err(MP.MoveFailed)
        else Ok(Stored(name, t.mime, true))
  }

  /**
   * A compressed image is always stored as a JPEG and marked not original,
   * however large the JPEG turns out; an image is compressed exactly when
   * its detected extension is neither `jpeg` nor `gif` and it is larger than 3 MiB.
   */
  lemma CompressedAlwaysJpeg(sortId: int, postId: int, p: Probe)
    requires Expected(sortId, postId, p).Ok? && p.inferred.value.matcher == MP.Image
    ensures var s := Expected(sortId, postId, p).value; var t := p.inferred.value;
      && (!s.original <==> Compresses(t, p.fileSize))
      && (Compresses(t, p.fileSize) ==> s == Stored(FileName(sortId, postId, "jpeg"), "image/jpeg", false))
      && (!Compresses(t, p.fileSize) ==> s == Stored(FileName(sortId, postId, t.extension), t.mime, true))
  {
  }

  /** A video keeps its own type and is always original. */
  lemma VideoStoredAsIs(sortId: int, postId: int, p: Probe)
    requires Expected(sortId, postId, p).Ok? && p.inferred.value.matcher == MP.Video
    ensures var t := p.inferred.value;
      Expected(sortId, postId, p).value == Stored(FileName(sortId, postId, t.extension), t.mime, true)
  {
  }

  /** Kinds other than video and image fail with `Unsupported`. */
  lemma UnsupportedRejected(sortId: int, postId: int, p: Probe)
    requires p.fileSize >= MP.HeaderSize && p.inferred.Some? && p.inferred.value.matcher == MP.Other
    ensures Expected(sortId, postId, p) == Err(MP.Unsupported)
  {
  }

  /**
   * The paths registered with the cleaner by the time `process` returns: the
   * final path as soon as the name is known, then the thumbnail path only once
   * ffmpeg has succeeded.
   */
  function Registered(dir: Path, sortId: int, postId: int, p: Probe): (r: seq<Path>)
    ensures |r| <= 2
  {
    if p.fileSize < MP.HeaderSize || p.inferred.None? || p.inferred.value.matcher == MP.Other then []
    else
      var t := p.inferred.value;
      var name := FinalName(sortId, postId, t, p.fileSize);
      var final := JoinPath(dir, name);
      if t.matcher == MP.Video && p.durationOk && p.ffmpegOk then [final, MP.ThumbPath(dir, name)]
      else [final]
  }

  /** A video's thumbnail is registered after its final path, and only after ffmpeg succeeded. */
  lemma RegistrationOrder(dir: Path, sortId: int, postId: int, p: Probe)
    requires p.fileSize >= MP.HeaderSize && p.inferred.Some? && p.inferred.value.matcher == MP.Video
    ensures var r := Registered(dir, sortId, postId, p);
      var name := FileName(sortId, postId, p.inferred.value.extension);
      && r[0] == JoinPath(dir, name)
      && (|r| == 2 <==> p.durationOk && p.ffmpegOk)
      && (|r| == 2 ==> r[1] == MP.ThumbPath(dir, name))
  {
  }

  /** `MediaProcessor` with its cleaner; `file_path` is the downloaded temporary file. */
  class Processor {
    const dir: Path
    const filePath: Path
    const postId: int
    const sortId: int
    const cleaner: FileCleaner

    constructor (dir: Path, filePath: Path, postId: int, sortId: int, disk: Disk)
      ensures this.dir == dir && this.filePath == filePath && this.postId == postId && this.sortId == sortId
      ensures fresh(cleaner) && cleaner.disk == disk && cleaner.cleanupPaths == [] && cleaner.shouldCleanup
    {
      this.dir, this.filePath, this.postId, this.sortId := dir, filePath, postId, sortId;
      cleaner := new FileCleaner(disk);
    }

    /**
     * `process` after the processor is built: the type check, then
     * `process_video` or `process_image`. On an error the processor, and its
     * cleaner, is dropped. On success the cleaner travels with the result.
     */
    method Run(p: Probe) returns (r: Result<Stored, MP.MediaError>)
      requires cleaner.cleanupPaths == [] && cleaner.shouldCleanup
      requires filePath !in Registered(dir, sortId, postId, p) && filePath in cleaner.disk.files
      modifies cleaner, cleaner.disk
      ensures r == Expected(sortId, postId, p)
      ensures r.Ok? ==> cleaner.cleanupPaths == Registered(dir, sortId, postId, p) && cleaner.shouldCleanup
      ensures r.Err? ==> cleaner.disk.files == old(cleaner.disk.files) - ToSet(Registered(dir, sortId, postId, p))
    {
      var disk := cleaner.disk;
      if p.fileSize < MP.HeaderSize {
        return Err(MP.HeaderUnreadable);
      }
      if p.inferred.None? {
        return Err(MP.UnknownType);
      }
      var t := p.inferred.value;
      if t.matcher == MP.Other {
        return Err(MP.Unsupported);
      }
      if t.matcher == MP.Video {
        r := ProcessVideo(t, p);
      } else if Compresses(t, p.fileSize) {
        r := CompressImage(t, p);
      } else {
        r := KeepImage(t, p);
      }
    }

    /** `process_video`: register the final path, make the thumbnail, register it, move the file. */
    method ProcessVideo(t: MP.FileType, p: Probe) returns (r: Result<Stored, MP.MediaError>)
      requires cleaner.cleanupPaths == [] && cleaner.shouldCleanup
      requires p.fileSize >= MP.HeaderSize && p.inferred == Some(t) && t.matcher == MP.Video
      requires filePath !in Registered(dir, sortId, postId, p) && filePath in cleaner.disk.files
      modifies cleaner, cleaner.disk
      ensures r == Expected(sortId, postId, p)
      ensures r.Ok? ==> cleaner.cleanupPaths == Registered(dir, sortId, postId, p) && cleaner.shouldCleanup
      ensures r.Err? ==> cleaner.disk.files == old(cleaner.disk.files) - ToSet(Registered(dir, sortId, postId, p))
    {
      r := VideoSteps(t, p, FileName(sortId, postId, t.extension));
    }

    /** The steps of `process_video` once the final name is known. */
    method VideoSteps(t: MP.FileType, p: Probe, name: string) returns (r: Result<Stored, MP.MediaError>)
      requires cleaner.cleanupPaths == [] && cleaner.shouldCleanup
      requires filePath != JoinPath(dir, name) && filePath in cleaner.disk.files
      requires p.durationOk && p.ffmpegOk ==> filePath != MP.ThumbPath(dir, name)
      modifies cleaner, cleaner.disk
      ensures r == if !p.durationOk then Err(MP.DurationFailed) else if !p.ffmpegOk then Err(MP.ThumbnailFailed)
                   else if p.move == CopyFailed then Err(MP.MoveFailed) else Ok(Stored(name, t.mime, true))
      ensures var paths := if p.durationOk && p.ffmpegOk then [JoinPath(dir, name), MP.ThumbPath(dir, name)]
                           else [JoinPath(dir, name)];
        && (r.Ok? ==> cleaner.cleanupPaths == paths && cleaner.shouldCleanup)
        && (r.Err? ==> cleaner.disk.files == old(cleaner.disk.files) - ToSet(paths))
    {
      var disk := cleaner.disk;
      var final := JoinPath(dir, name);
      cleaner.Add(final);
      if !p.durationOk {
        CleanupOne(final);
        return Err(MP.DurationFailed);
      }
      if !p.ffmpegOk {
        CleanupOne(final);
        return Err(MP.ThumbnailFailed);
      }
      var thumb := MP.ThumbPath(dir, name);
      disk.files := disk.files[thumb := p.thumbContent];
      cleaner.Add(thumb);
      var moved := disk.MoveFile(filePath, final, p.move);
      if !moved {
        assert ToSet([final, thumb]) == {final, thumb};
        cleaner.Drop();
        return Err(MP.MoveFailed);
      }
      r := Ok(Stored(name, t.mime, true));
    }

    /** `compress_image`: register the final path, then magick writes the JPEG to it. */
    method CompressImage(t: MP.FileType, p: Probe) returns (r: Result<Stored, MP.MediaError>)
      requires cleaner.cleanupPaths == [] && cleaner.shouldCleanup
      requires p.fileSize >= MP.HeaderSize && p.inferred == Some(t) && t.matcher == MP.Image
      requires Compresses(t, p.fileSize)
      modifies cleaner, cleaner.disk
      ensures r == Expected(sortId, postId, p)
      ensures r.Ok? ==> cleaner.cleanupPaths == Registered(dir, sortId, postId, p) && cleaner.shouldCleanup
      ensures r.Err? ==> cleaner.disk.files == old(cleaner.disk.files) - ToSet(Registered(dir, sortId, postId, p))
    {
      r := CompressSteps(p, FileName(sortId, postId, "jpeg"));
    }

    /** The steps of `compress_image` once the final name is known. */
    method CompressSteps(p: Probe, name: string) returns (r: Result<Stored, MP.MediaError>)
      requires cleaner.cleanupPaths == [] && cleaner.shouldCleanup
      modifies cleaner, cleaner.disk
      ensures r == if !p.magickOk then Err(MP.CompressionFailed) else Ok(Stored(name, "image/jpeg", false))
      ensures r.Ok? ==> cleaner.cleanupPaths == [JoinPath(dir, name)] && cleaner.shouldCleanup
      ensures r.Err? ==> cleaner.disk.files == old(cleaner.disk.files) - ToSet([JoinPath(dir, name)])
    {
      var disk := cleaner.disk;
      var final := JoinPath(dir, name);
      cleaner.Add(final);
      if !p.magickOk {
        CleanupOne(final);
        assert ToSet([final]) == {final};
        return Err(MP.CompressionFailed);
      }
      disk.files := disk.files[final := p.jpegContent];
      r := Ok(Stored(name, "image/jpeg", false));
    }

    /** The other branch of `process_image`: register the final path and move the file there. */
    method KeepImage(t: MP.FileType, p: Probe) returns (r: Result<Stored, MP.MediaError>)
      requires cleaner.cleanupPaths == [] && cleaner.shouldCleanup
      requires p.fileSize >= MP.HeaderSize && p.inferred == Some(t) && t.matcher == MP.Image
      requires !Compresses(t, p.fileSize)
      requires filePath in cleaner.disk.files
      modifies cleaner, cleaner.disk
      ensures r == Expected(sortId, postId, p)
      ensures r.Ok? ==> cleaner.cleanupPaths == Registered(dir, sortId, postId, p) && cleaner.shouldCleanup
      ensures r.Err? ==> cleaner.disk.files == old(cleaner.disk.files) - ToSet(Registered(dir, sortId, postId, p))
    {
      r := KeepSteps(t, p, FileName(sortId, postId, t.extension));
    }

    /** The steps of the keeping branch once the final name is known. */
    method KeepSteps(t: MP.FileType, p: Probe, name: string) returns (r: Result<Stored, MP.MediaError>)
      requires cleaner.cleanupPaths == [] && cleaner.shouldCleanup
      requires filePath in cleaner.disk.files
      modifies cleaner, cleaner.disk
      ensures r == if p.move == CopyFailed then Err(MP.MoveFailed) else Ok(Stored(name, t.mime, true))
      ensures r.Ok? ==> cleaner.cleanupPaths == [JoinPath(dir, name)] && cleaner.shouldCleanup
      ensures r.Err? ==> cleaner.disk.files == old(cleaner.disk.files) - ToSet([JoinPath(dir, name)])
    {
      var disk := cleaner.disk;
      var final := JoinPath(dir, name);
      cleaner.Add(final);
      var moved := disk.MoveFile(filePath, final, p.move);
      if !moved {
        CleanupOne(final);
        assert ToSet([final]) == {final};
        return Err(MP.MoveFailed);
      }
      r := Ok(Stored(name, t.mime, true));
    }

    /** Dropping the processor when only the final path is registered. */
    method CleanupOne(final: Path)
      requires cleaner.cleanupPaths == [final] && cleaner.shouldCleanup
      modifies cleaner.disk
      ensures cleaner.disk.files == old(cleaner.disk.files) - {final}
    {
      assert ToSet([final]) == {final};
      cleaner.Drop();
    }
  }

  /**
   * `MediaProcessor::process`: a fresh cleaner, the processor around it, and
   * the run. The cleaner is returned so that the caller can commit it once the
   * download row is stored, or drop it to undo the files.
   */
  method Process(disk: Disk, dir: Path, postId: int, sortId: int, filePath: Path, p: Probe)
    returns (r: Result<Stored, MP.MediaError>, cleaner: FileCleaner)
    requires filePath !in Registered(dir, sortId, postId, p) && filePath in disk.files
    modifies disk
    ensures r == Expected(sortId, postId, p)
    ensures cleaner.disk == disk
    ensures r.Ok? ==> cleaner.cleanupPaths == Registered(dir, sortId, postId, p) && cleaner.shouldCleanup
    ensures r.Err? ==> disk.files == old(disk.files) - ToSet(Registered(dir, sortId, postId, p))
  {
    var processor := new Processor(dir, filePath, postId, sortId, disk);
    r := processor.Run(p);
    cleaner := processor.cleaner;
  }
}

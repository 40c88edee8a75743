/** The gallery's view of a stored post (src/web/models.rs). */
module WebModels {
  import opened Text
  import opened Files
  import MP = MediaProcessor

  /** A row of the gallery's `downloads` table: the post id, its file name and mime type. */
  datatype Post = Post(id: int, fileName: string, mime: string)

  /** A row of the `tags_with_uses` view as the gallery reads it. */
  datatype Tag = Tag(id: int, name: string, uses: int)

  /** `is_video`: the mime type starts with `video`. */
  predicate IsVideo(post: Post) {
    StartsWith(post.mime, "video")
  }

  /**
   * `image_path`: a video is shown through its thumbnail `base/.thumbs/<name>.jpeg`,
   * anything else through the file itself.
   */
  function ImagePath(post: Post, base: Path): (r: Path)
    ensures IsVideo(post) ==> r == MP.ThumbPath(base, post.fileName)
    ensures !IsVideo(post) ==> r == JoinPath(base, post.fileName) && |r| == |base| + 1
  {
    if IsVideo(post) then JoinPath(JoinPath(base, ThumbsDir), post.fileName + ".jpeg")
    else JoinPath(base, post.fileName)
  }

  /**
   * A video stored under the media file name of the upload path is shown
   * through the thumbnail that commit placed for it.
   */
  lemma VideoShownThroughCommittedThumb(base: Path, id: int, externalId: int, extension: string, mime: string)
    requires StartsWith(mime, "video")
    ensures var name := PaddedName(id, externalId, extension);
      ImagePath(Post(id, name, mime), base) == MP.ThumbPath(base, name)
      && ImagePath(Post(id, name, mime), base) != MP.MainPath(base, id, externalId, extension)
  {
    MP.ThumbPathDiffers(base, id, externalId, extension);
  }
}

/** Paths, the file-system facts the program asks about, and media-type tests. */
module Utils {
  import opened Wrappers

  /** A pathlib path, split as `parent / (stem + suffix)`. */
  datatype Path = Path(parent: string, stem: string, suffix: string)

  /**
    What the operating system answers about a path: whether it exists,
    whether it is a regular file, and the type `mimetypes.guess_type`
    guesses for it.
  */
  datatype PathStat = PathStat(present: bool, isFile: bool, mimetype: Option<string>)

  /** pathlib's `is_file()` is false for a path that does not exist. */
  type PathFacts = facts: PathStat | facts.isFile ==> facts.present
    witness PathStat(false, false, None)

  type FileSystem = Path -> PathFacts

  predicate StartsWith(s: string, prefix: string) {
    |prefix| <= |s| && s[..|prefix|] == prefix
  }

  /** The guessed media type of a regular file, if it begins with `prefix`. */
  predicate FileOfType(fs: FileSystem, path: Option<Path>, prefix: string) {
    && path.Some?
    && fs(path.value).isFile
    && fs(path.value).mimetype.Some?
    && StartsWith(fs(path.value).mimetype.value, prefix)
  }

  /** `is_image`: an existing regular file whose guessed type starts with "image/". */
  function IsImage(fs: FileSystem, path: Option<Path>): (r: bool)
    ensures r ==> path.Some? && fs(path.value).present && fs(path.value).isFile && fs(path.value).mimetype.Some?
    ensures r <==> FileOfType(fs, path, "image/")
  {
    if path.Some? && fs(path.value).isFile then
      var mimetype := fs(path.value).mimetype;
      mimetype.Some? && StartsWith(mimetype.value, "image/")
    else
      false
  }

  /**
    `is_video`: an existing regular file whose guessed type starts with
    "video/". No path is both a video and an image.
  */
  function IsVideo(fs: FileSystem, path: Option<Path>): (r: bool)
    ensures r ==> path.Some? && fs(path.value).present && fs(path.value).isFile && fs(path.value).mimetype.Some?
    ensures r <==> FileOfType(fs, path, "video/")
    ensures r ==> !IsImage(fs, path)
  {
    if path.Some? && fs(path.value).isFile then
      var mimetype := fs(path.value).mimetype;
      var video := mimetype.Some? && StartsWith(mimetype.value, "video/");
      assert video ==> mimetype.value[0] == mimetype.value[..6][0] == 'v';
      video
    else
      false
  }
}

/** FileService: stores uploaded audio files on disk under a unique name,
    records them in the Files table, and fills in their details either from
    the caller or from the container's tags. */
module FileServices {
  import opened Common
  import opened Text
  import opened Externals
  import opened Files

  /** An uploaded form file: its client-side name and its bytes. */
  datatype FormFile = FormFile(fileName: string, content: seq<byte>)

  /** How copying the upload to disk ends: completely, or with an exception
      after `FileMode.Create` left a (possibly partial) file behind, or
      before any file was created (None). */
  datatype WriteOutcome = WriteCompleted | WriteFailed(leftover: Option<seq<byte>>)

  /** The whitelisted audio extensions, without their dot, in the order the
      pattern lists them ("mp3" appears twice). */
  const AudioExtensions: seq<string> :=
    ["mp3", "opus", "flac", "webm", "weba", "wav", "ogg", "m4a", "mp3", "oga", "mid", "amr", "aiff", "wma", "au", "aac"]

  // ----------------------------------------------------- extension check

  /** The regular expression's `$`: `tail` ends the text, or ends it but for
      one final line feed; `.*` before it matches no line feed. */
  predicate EndsAtAnchor(s: string, tail: string)
    ensures EndsAtAnchor(s, tail) ==> |tail| <= |s|
    ensures EndsAtAnchor(s, tail) && |tail| > 0 ==> tail[0] in s
  {
    || (|tail| <= |s| && s[|s| - |tail|..] == tail && '\n' !in s[..|s| - |tail|])
    || (|tail| < |s| && s[|s| - 1] == '\n' && s[|s| - 1 - |tail|..|s| - 1] == tail
        && '\n' !in s[..|s| - 1 - |tail|])
  }

  /** The whitelist as written: `^.*\.(mp3|...|aac)$` matched against the
      lower-cased extension. */
  predicate RegexAccepts(lowered: string)
    ensures RegexAccepts(lowered) ==> '.' in lowered
  {
    exists i | 0 <= i < |AudioExtensions| :: EndsAtAnchor(lowered, "." + AudioExtensions[i])
  }

  /** The whitelist as intended: the extension, ignoring case, is a dot
      followed by one of the audio extensions. */
  predicate IsAudioExtension(ext: string)
    ensures IsAudioExtension(ext) ==> 3 <= |ext| <= 5 && ext[0] == '.' && '\n' !in ext
  {
    exists i | 0 <= i < |AudioExtensions| :: ToLower(ext) == "." + AudioExtensions[i]
  }

  /** A file name that ends in ".mp3" and a line feed has extension
      ".mp3\n", which the pattern accepts although it is not an audio
      extension. */
  lemma TrailingLineFeedAccepted()
    ensures GetExtension("song.mp3\n") == ".mp3\n"
    ensures RegexAccepts(ToLower(".mp3\n"))
    ensures !IsAudioExtension(".mp3\n")
  {
    assert IsExtension(".mp3\n");
    ExtensionOfAppended("song", ".mp3\n");
    assert "song" + ".mp3\n" == "song.mp3\n";
    var lowered := ToLower(".mp3\n");
    assert lowered == ".mp3\n";
    assert EndsAtAnchor(lowered, "." + AudioExtensions[0]);
    forall i | 0 <= i < |AudioExtensions| ensures lowered != "." + AudioExtensions[i] {
      assert lowered[|lowered| - 1] == '\n';
    }
  }

  /** `LowerChar` maps no other character to '.' or to a line feed. */
  lemma LowerCharKeeps(c: char)
    ensures LowerChar(c) == '.' <==> c == '.'
    ensures LowerChar(c) == '\n' <==> c == '\n'
  {
  }

  /** On every extension `Path.GetExtension` can return that does not end
      in a line feed, the pattern and the intended whitelist agree. */
  lemma RegexAgreesOffLineFeed(ext: string)
    requires IsExtension(ext) && ext[|ext| - 1] != '\n'
    ensures RegexAccepts(ToLower(ext)) <==> IsAudioExtension(ext)
  {
    var s := ToLower(ext);
    LowerCharKeeps(ext[|ext| - 1]);
    if RegexAccepts(s) {
      var i :| 0 <= i < |AudioExtensions| && EndsAtAnchor(s, "." + AudioExtensions[i]);
      var tail := "." + AudioExtensions[i];
      assert s[|s| - 1] != '\n';
      var k := |s| - |tail|;
      assert s[k..][0] == '.';
      LowerCharKeeps(ext[k]);
      assert s == tail;
    }
    if IsAudioExtension(ext) {
      var i :| 0 <= i < |AudioExtensions| && s == "." + AudioExtensions[i];
      assert s[|s| - |s|..] == s;
      assert EndsAtAnchor(s, "." + AudioExtensions[i]);
    }
  }

  /** ".MP3" is accepted like ".mp3"; the empty extension of a name with no
      dot is rejected. */
  lemma WhitelistExamples()
    ensures IsAudioExtension(".MP3") && IsAudioExtension(".mp3")
    ensures !IsAudioExtension("")
  {
    assert ToLower(".MP3") == "." + AudioExtensions[0];
    assert ToLower(".mp3") == "." + AudioExtensions[0];
  }

  /** Extension checking ignores case. */
  lemma WhitelistIgnoresCase(ext: string, other: string)
    requires ToLower(ext) == ToLower(other)
    ensures IsAudioExtension(ext) == IsAudioExtension(other)
  {
  }

  /** An accepted extension has the shape `Path.GetExtension` gives. */
  lemma AudioExtensionShape(fileName: string)
    requires IsAudioExtension(GetExtension(fileName))
    ensures IsExtension(GetExtension(fileName))
  {
    ExtensionShape(fileName);
  }

  /** The path an upload is written to: the unique name with the upload's
      own extension, in the TempFiles directory. */
  function StoredPath(contentPath: string, uniqueName: string, fileName: string): (p: string)
    ensures contentPath + "\\TempFiles\\" <= p
    ensures |GetExtension(fileName)| <= |p| && p[|p| - |GetExtension(fileName)|..] == GetExtension(fileName)
  {
    contentPath + "\\TempFiles\\" + uniqueName + GetExtension(fileName)
  }

  /** The stored name keeps the upload's extension as its own. */
  lemma StoredPathKeepsExtension(contentPath: string, uniqueName: string, fileName: string)
    requires IsAudioExtension(GetExtension(fileName))
    ensures GetExtension(StoredPath(contentPath, uniqueName, fileName)) == GetExtension(fileName)
  {
    AudioExtensionShape(fileName);
    ExtensionOfAppended(contentPath + "\\TempFiles\\" + uniqueName, GetExtension(fileName));
  }

  // --------------------------------------------------------- tag merge

  /** `MimeType.Split("/").Last()`: the part of a MIME type after its last
      '/', or all of it when it has none. */
  function FileTypeOf(mimeType: string): (t: string)
    ensures '/' !in t && |t| <= |mimeType| && mimeType[|mimeType| - |t|..] == t
    ensures |t| == |mimeType| || mimeType[|mimeType| - |t| - 1] == '/'
  {
    SplitLast(mimeType, '/');
    var parts := Split(mimeType, '/');
    parts[|parts| - 1]
  }

  /** A MIME type without '/' is its own file type. */
  lemma FileTypeWithoutSlash(mimeType: string)
    requires '/' !in mimeType
    ensures FileTypeOf(mimeType) == mimeType
  {
    SplitJoin([mimeType], '/');
  }

  /** "audio/mpeg" has file type "mpeg". */
  lemma FileTypeOfMpeg()
    ensures FileTypeOf("audio/mpeg") == "mpeg"
  {
    SplitJoin(["audio", "mpeg"], '/');
    assert Join(['/'], ["audio", "mpeg"]) == "audio/mpeg";
  }

  /** `ExtractMetadataAsync`'s change to a row: each descriptive field takes
      the tag's value only when that is non-empty; the technical fields
      always take the container's. */
  function Merge(f: File, tf: TagFile): (m: File)
    ensures m.id == f.id && m.name == f.name && m.path == f.path && m.trackNumber == f.trackNumber
    ensures m.bitrate == tf.audioBitrate && m.size == tf.invariantEndPosition
    ensures m.duration * 10000000.0 == tf.durationTicks as real
    ensures m.fileType == FileTypeOf(tf.mimeType)
  {
    var t := tf.tag;
    f.(
      artist := if IsNullOrEmpty(FirstPerformer(t)) then f.artist else FirstPerformer(t),
      album := if IsNullOrEmpty(t.album) then f.album else t.album,
      trackTitle := if IsNullOrEmpty(t.title) then f.trackTitle else t.title,
      genre := if IsNullOrEmpty(FirstGenre(t)) then f.genre else FirstGenre(t),
      bitrate := tf.audioBitrate,
      duration := tf.durationTicks as real / 10000000.0,
      size := tf.invariantEndPosition,
      fileType := FileTypeOf(tf.mimeType))
  }

  /** Extracting the same tags twice gives the same row as once. */
  lemma MergeIdempotent(f: File, tf: TagFile)
    ensures Merge(Merge(f, tf), tf) == Merge(f, tf)
  {
  }

  /** A non-empty tag wins, an empty tag keeps what the row had. */
  lemma MergeDescriptive(f: File, tf: TagFile)
    ensures var m := Merge(f, tf);
      && (IsNullOrEmpty(FirstPerformer(tf.tag)) ==> m.artist == f.artist)
      && (!IsNullOrEmpty(FirstPerformer(tf.tag)) ==> m.artist == FirstPerformer(tf.tag))
      && (IsNullOrEmpty(tf.tag.album) ==> m.album == f.album)
      && (!IsNullOrEmpty(tf.tag.album) ==> m.album == tf.tag.album)
      && (IsNullOrEmpty(tf.tag.title) ==> m.trackTitle == f.trackTitle)
      && (!IsNullOrEmpty(tf.tag.title) ==> m.trackTitle == tf.tag.title)
      && (IsNullOrEmpty(FirstGenre(tf.tag)) ==> m.genre == f.genre)
      && (!IsNullOrEmpty(FirstGenre(tf.tag)) ==> m.genre == FirstGenre(tf.tag))
  {
  }

  /** `UpdateMetadataAsync`'s change to a row: all five fields overwritten,
      blank values included. */
  function WithDetails(f: File, artist: string, album: string, trackTitle: string, genre: string, trackNumber: string): (g: File)
    ensures g.artist == artist && g.album == album && g.trackTitle == trackTitle
    ensures g.genre == genre && g.trackNumber == trackNumber
    ensures g.id == f.id && g.name == f.name && g.path == f.path && g.bitrate == f.bitrate
    ensures g.duration == f.duration && g.size == f.size && g.fileType == f.fileType
  {
    f.(artist := artist, album := album, trackTitle := trackTitle, genre := genre, trackNumber := trackNumber)
  }

  /** Of two full overwrites the last one wins. */
  lemma WithDetailsLastWins(f: File, a: string, b: string, c: string, d: string, e: string,
                            a2: string, b2: string, c2: string, d2: string, e2: string)
    ensures WithDetails(WithDetails(f, a, b, c, d, e), a2, b2, c2, d2, e2) == WithDetails(f, a2, b2, c2, d2, e2)
  {
  }

  class FileService {
    /** The file repository. */
    const repo: FileRepository
    /** The application's base directory. */
    const contentPath: string
    /** The files on disk, by path. */
    var disk: map<string, seq<byte>>
    /** TagLib reading the container stored at a path, given the path
        (which picks the format) and its bytes. */
    const readTags: (string, seq<byte>) -> TagParse

    ghost predicate Valid()
      reads this, repo
    {
      repo.Valid()
    }

    constructor (repo: FileRepository, contentPath: string, readTags: (string, seq<byte>) -> TagParse)
      requires repo.Valid()
      ensures Valid() && disk == map[]
      ensures this.repo == repo && this.contentPath == contentPath && this.readTags == readTags
    {
      this.repo := repo;
      this.contentPath := contentPath;
      this.readTags := readTags;
      disk := map[];
    }

    /** `AddFileAsync`: reject a non-audio extension before anything is
        written, copy the upload to a uniquely named file keeping its
        extension, and only once that succeeded add the row. `uniqueName`
        is the generated Guid-and-timestamp stem, `write` how the copy ends,
        `newId` the key the table hands out and `saveFails` whether the
        table's save throws, which leaves the written file without a row. */
    method AddFile(upload: FormFile, uniqueName: string, write: WriteOutcome, newId: int, saveFails: bool)
      returns (r: Result<int>)
      requires Valid() && repo.IsFreshId(newId)
      modifies this`disk, repo
      ensures Valid()
      ensures var path := StoredPath(contentPath, uniqueName, upload.fileName);
        if !IsAudioExtension(GetExtension(upload.fileName)) then
          r == Err(ArgumentException) && disk == old(disk) && repo.files == old(repo.files)
        else if write.WriteFailed? then
          && r == Err(IOException) && repo.files == old(repo.files)
          && disk == (if write.leftover.Some? then old(disk)[path := write.leftover.value] else old(disk))
        else if saveFails then
          && r == Err(DbSaveFailure) && repo.files == old(repo.files)
          && disk == old(disk)[path := upload.content]
        else
          && r == Ok(newId) && disk == old(disk)[path := upload.content]
          && repo.files == old(repo.files) + [NewFile(newId, upload.fileName, path)]
      ensures r.Ok? ==> repo.GetFile(r.value) == Ok(NewFile(newId, upload.fileName, StoredPath(contentPath, uniqueName, upload.fileName)))
    {
      var extension := GetExtension(upload.fileName);
      if !IsAudioExtension(extension) {
        return Err(ArgumentException);
      }
      var path := StoredPath(contentPath, uniqueName, upload.fileName);
      match write {
        case WriteFailed(leftover) =>
          if leftover.Some? {
            disk := disk[path := leftover.value];
          }
          return Err(IOException);
        case WriteCompleted =>
          disk := disk[path := upload.content];
      }
      r := repo.AddFile(upload.fileName, path, newId, saveFails);
    }

    /** `GetFileAsync`. */
    function GetFile(fileId: int): (r: Result<File>)
      reads this, repo
      ensures r == repo.GetFile(fileId)
      ensures r.Err? ==> r.error == FileNotFoundException
    {
      repo.GetFile(fileId)
    }

    /** `GetFilesAsync`: one entry per stored row, in order. */
    method GetFiles() returns (result: seq<File>)
      ensures result == repo.files
    {
      result := repo.GetFiles();
    }

    /** `UpdateMetadataAsync`: overwrite the five descriptive fields of a
        stored file; `saveFails` says whether the table's save throws. */
    method UpdateMetadata(fileId: int, artist: string, album: string, trackTitle: string, genre: string, trackNumber: string,
                          saveFails: bool)
      returns (r: Result<()>)
      requires Valid()
      modifies repo
      ensures Valid()
      ensures old(repo.GetFile(fileId)).Err? ==>
        r == Err(FileNotFoundException) && repo.files == old(repo.files)
      ensures old(repo.GetFile(fileId)).Ok? && saveFails ==>
        r == Err(DbSaveFailure) && repo.files == old(repo.files)
      ensures old(repo.GetFile(fileId)).Ok? && !saveFails ==>
        && r == Ok(())
        && repo.files == old(repo.files)[old(IndexOf(repo.files, fileId)).value :=
             WithDetails(old(repo.GetFile(fileId)).value, artist, album, trackTitle, genre, trackNumber)]
        && repo.GetFile(fileId) == Ok(WithDetails(old(repo.GetFile(fileId)).value, artist, album, trackTitle, genre, trackNumber))
      ensures forall id | id != fileId :: repo.GetFile(id) == old(repo.GetFile(id))
    {
      var found := repo.GetFile(fileId);
      if found.Err? {
        return Err(found.error);
      }
      var updated := WithDetails(found.value, artist, album, trackTitle, genre, trackNumber);
      r := repo.UpdateFileDetails(updated, saveFails);
    }

    /** `ExtractMetadataAsync`: read the tags of the stored file and merge
        them into its row; `saveFails` says whether the table's save
        throws. */
    method ExtractMetadata(fileId: int, saveFails: bool) returns (r: Result<File>)
      requires Valid()
      modifies repo
      ensures Valid()
      ensures old(repo.GetFile(fileId)).Err? ==>
        r == Err(FileNotFoundException) && repo.files == old(repo.files)
      ensures old(repo.GetFile(fileId)).Ok? ==>
        var f := old(repo.GetFile(fileId)).value;
        if f.path !in disk then
          r == Err(IOException) && repo.files == old(repo.files)
        else if !readTags(f.path, disk[f.path]).Parsed? then
          r == Err(TagParseFailure) && repo.files == old(repo.files)
        else if saveFails then
          r == Err(DbSaveFailure) && repo.files == old(repo.files)
        else
          && r == Ok(Merge(f, readTags(f.path, disk[f.path]).file))
          && repo.files == old(repo.files)[old(IndexOf(repo.files, fileId)).value := r.value]
          && repo.GetFile(fileId) == r
      ensures forall id | id != fileId :: repo.GetFile(id) == old(repo.GetFile(id))
    {
      var found := repo.GetFile(fileId);
      if found.Err? {
        return Err(found.error);
      }
      var file := found.value;
      if file.path !in disk {
        return Err(IOException);
      }
      var parse := readTags(file.path, disk[file.path]);
      if !parse.Parsed? {
        return Err(TagParseFailure);
      }
      var merged := Merge(file, parse.file);
      var saved := repo.UpdateFileDetails(merged, saveFails);
      if saved.Err? {
        return Err(saved.error);
      }
      return Ok(merged);
    }
  }
}

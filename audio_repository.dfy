/** AudioRepository: an audio's bytes go to a blob store under a file name
    derived from the audio, its description to a row of the Audio table.
    The store writes the blob first and deletes it again when the row cannot
    be saved. */
module Audios {
  import opened Common
  import opened Text

  /** A row of the Audio table, as AudioRepository builds it. */
  datatype Audio = Audio(id: Guid, name: string, fileType: string, contentType: string, creator: string)

  /** The AudioModel the reads return; `file` is null (None) for a metadata
      read. */
  datatype AudioModel = AudioModel(id: Guid, name: string, contentType: string, creator: string, file: Option<seq<byte>>)

  /** `Audio.ToDomainModel()`: the row's fields, no bytes. */
  function ToDomainModel(a: Audio): AudioModel
  {
    AudioModel(a.id, a.name, a.contentType, a.creator, None)
  }

  /** Which of the collaborator calls made by one store throw: the blob
      save, the row save, the compensating blob delete. */
  datatype Faults = Faults(blobWriteFails: bool, rowSaveFails: bool, deleteFails: bool)

  /** Blob file names of different audios never coincide. */
  ghost predicate DistinctFileNames(fileName: (Guid, string) -> string)
  {
    forall a: Guid, s: string, b: Guid, t: string {:trigger fileName(a, s), fileName(b, t)} ::
      a != b ==> fileName(a, s) != fileName(b, t)
  }

  /** The consistency of the two stores: every row is keyed by its own id and
      its blob is present. Blobs without a row (orphans) are tolerated. */
  ghost predicate Consistent(fileName: (Guid, string) -> string, audio: map<Guid, Audio>, blobs: map<string, seq<byte>>)
  {
    forall id | id in audio :: audio[id].id == id && fileName(id, audio[id].fileType) in blobs
  }

  /** Writing the blob of an audio that has no row keeps the stores
      consistent. */
  lemma PutKeepsConsistent(fileName: (Guid, string) -> string, audio: map<Guid, Audio>, blobs: map<string, seq<byte>>,
                           key: string, file: seq<byte>)
    requires Consistent(fileName, audio, blobs)
    ensures Consistent(fileName, audio, blobs[key := file])
  {
  }

  /** Deleting the blob of an audio that has no row keeps the stores
      consistent, and the delete undoes the write it compensates except for
      a blob that was already stored under that name. */
  lemma CompensationKeepsConsistent(fileName: (Guid, string) -> string, audio: map<Guid, Audio>, blobs: map<string, seq<byte>>,
                                    id: Guid, fileType: string, file: seq<byte>)
    requires DistinctFileNames(fileName)
    requires Consistent(fileName, audio, blobs)
    requires id !in audio
    ensures var key := fileName(id, fileType);
      Consistent(fileName, audio, blobs[key := file] - {key})
      && blobs[key := file] - {key} == blobs - {key}
      && (key !in blobs ==> blobs[key := file] - {key} == blobs)
  {
    var key := fileName(id, fileType);
    forall other | other in audio ensures fileName(other, audio[other].fileType) != key {
      assert other != id;
    }
  }

  /** `StoreAudioMetadataAsync`'s change to a row: a blank name keeps the
      stored one, the creator is always overwritten. */
  function WithMetadata(a: Audio, name: string, creator: string): (b: Audio)
    ensures b.creator == creator
    ensures IsNullOrWhiteSpace(b.name) ==> IsNullOrWhiteSpace(a.name)
  {
    a.(name := if IsNullOrWhiteSpace(name) then a.name else name, creator := creator)
  }

  /** The partial-update rule for every row and every argument: the creator
      is always set, a blank name keeps the stored one and any other name
      replaces it, and id, file type and content type stay. */
  lemma MetadataUpdateRule(a: Audio, name: string, creator: string)
    ensures var b := WithMetadata(a, name, creator);
      && b.creator == creator
      && (IsNullOrWhiteSpace(name) ==> b.name == a.name)
      && (!IsNullOrWhiteSpace(name) ==> b.name == name)
      && b.id == a.id && b.fileType == a.fileType && b.contentType == a.contentType
  {
  }

  /** The partial-update rule on concrete examples: an empty or all-space
      name leaves the name as it was, a real one replaces it; the creator is
      set either way, and nothing else moves. */
  lemma PartialUpdate(a: Audio)
    ensures WithMetadata(a, "", "John") == a.(creator := "John")
    ensures WithMetadata(a, "  ", "John") == a.(creator := "John")
    ensures WithMetadata(a, "New Title", "John") == a.(name := "New Title", creator := "John")
  {
    assert !IsWhiteSpace("New Title"[0]);
  }

  class AudioRepository {
    /** The blob store (IFileStorage): file name to bytes. */
    var blobs: map<string, seq<byte>>
    /** The Audio table, by id. */
    var audio: map<Guid, Audio>
    /** `Audio.FileName`: the blob's name, derived from the audio's id and
        file type in a way the model does not see. */
    const fileName: (Guid, string) -> string

    ghost predicate Valid()
      reads this
    {
      DistinctFileNames(fileName) && Consistent(fileName, audio, blobs)
    }

    constructor (fileName: (Guid, string) -> string, blobs: map<string, seq<byte>>)
      requires DistinctFileNames(fileName)
      ensures Valid()
      ensures this.fileName == fileName && this.blobs == blobs && audio == map[]
    {
      this.fileName := fileName;
      this.blobs := blobs;
      audio := map[];
    }

    /** `StoreAudioFileAsync`: refuse a taken id, write the blob, insert the
        row; when the row cannot be saved, delete the blob and rethrow. */
    method StoreAudioFile(file: seq<byte>, audioId: Guid, name: string, fileType: string, contentType: string, faults: Faults)
      returns (r: Result<()>)
      requires Valid()
      modifies this`blobs, this`audio
      ensures Valid()
      ensures var key := fileName(audioId, fileType);
        if audioId in old(audio) then
          r == Err(ArgumentException) && audio == old(audio) && blobs == old(blobs)
        else if faults.blobWriteFails then
          r == Err(StorageWriteFailure) && audio == old(audio) && blobs == old(blobs)
        else if !faults.rowSaveFails then
          r == Ok(())
          && audio == old(audio)[audioId := Audio(audioId, name, fileType, contentType, "")]
          && blobs == old(blobs)[key := file]
        else if faults.deleteFails then
          r == Err(StorageDeleteFailure) && audio == old(audio) && blobs == old(blobs)[key := file]
        else
          r == Err(DbSaveFailure) && audio == old(audio) && blobs == old(blobs) - {key}
      ensures r.Ok? ==> GetAudioFile(audioId) == Ok(AudioModel(audioId, name, contentType, "", Some(file)))
      ensures r.Err? && r != Err(StorageDeleteFailure) && fileName(audioId, fileType) !in old(blobs) ==>
        audio == old(audio) && blobs == old(blobs)
    {
      if audioId in audio {
        return Err(ArgumentException);
      }
      var row := Audio(audioId, name, fileType, contentType, "");
      var key := fileName(audioId, fileType);
      if faults.blobWriteFails {
        return Err(StorageWriteFailure);
      }
      PutKeepsConsistent(fileName, audio, blobs, key, file);
      CompensationKeepsConsistent(fileName, audio, blobs, audioId, fileType, file);
      blobs := blobs[key := file];
      if faults.rowSaveFails {
        if faults.deleteFails {
          return Err(StorageDeleteFailure);
        }
        blobs := blobs - {key};
        return Err(DbSaveFailure);
      }
      audio := audio[audioId := row];
      return Ok(());
    }

    /** `StoreAudioMetadataAsync`: rename (unless the name is blank) and set
        the creator of a stored audio; when `SaveChanges` throws
        (`saveFails`) the row stays as it was. */
    method StoreAudioMetadata(audioId: Guid, name: string, creator: string, saveFails: bool) returns (r: Result<()>)
      requires Valid()
      modifies this`audio
      ensures Valid()
      ensures audioId !in old(audio) ==> r == Err(AudioNotFoundException) && audio == old(audio)
      ensures audioId in old(audio) && saveFails ==> r == Err(DbSaveFailure) && audio == old(audio)
      ensures audioId in old(audio) && !saveFails ==>
        r == Ok(()) && audio == old(audio)[audioId := WithMetadata(old(audio)[audioId], name, creator)]
      ensures r.Ok? ==> GetAudioMetadata(audioId).value.creator == creator
    {
      if audioId !in audio {
        return Err(AudioNotFoundException);
      }
      if saveFails {
        return Err(DbSaveFailure);
      }
      audio := audio[audioId := WithMetadata(audio[audioId], name, creator)];
      return Ok(());
    }

    /** `GetAudioMetadataAsync`. */
    function GetAudioMetadata(audioId: Guid): (r: Result<AudioModel>)
      reads this
      ensures r.Ok? <==> audioId in audio
      ensures r.Err? ==> r.error == AudioNotFoundException
      ensures r.Ok? ==> r.value == ToDomainModel(audio[audioId]) && r.value.file == None
    {
      if audioId !in audio then Err(AudioNotFoundException) else Ok(ToDomainModel(audio[audioId]))
    }

    /** `GetAudioFileAsync`: the row's model with the bytes stored under its
        file name. */
    function GetAudioFile(audioId: Guid): (r: Result<AudioModel>)
      reads this
      ensures audioId !in audio ==> r == Err(AudioNotFoundException)
      ensures Valid() && audioId in audio ==>
        r == Ok(ToDomainModel(audio[audioId]).(file := Some(blobs[fileName(audioId, audio[audioId].fileType)])))
    {
      if audioId !in audio then Err(AudioNotFoundException)
      else
        var key := fileName(audioId, audio[audioId].fileType);
        if key !in blobs then Err(StorageReadFailure)
        else Ok(ToDomainModel(audio[audioId]).(file := Some(blobs[key])))
    }
  }
}

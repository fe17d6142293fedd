/** AudioFilesRepository: uploaded audio kept as a byte column of the
    AudioFiles table, with a file name and a subscriber attached later. */
module AudioFiles {
  import opened Common

  /** A row of the AudioFiles table; dates are opaque instants. */
  datatype AudioFile = AudioFile(
    id: Guid,
    fileName: string,
    contentType: string,
    file: seq<byte>,
    createdDate: int,
    updatedDate: int,
    subscriber: string)

  /** `AddAudioMetadata`'s change to a row: file name and subscriber
      overwritten, whatever they were. */
  function WithNameAndSubscriber(f: AudioFile, fileName: string, subscriber: string): (g: AudioFile)
    ensures g.fileName == fileName && g.subscriber == subscriber
    ensures g.file == f.file && g.contentType == f.contentType && g.id == f.id
    ensures g.createdDate == f.createdDate && g.updatedDate == f.updatedDate
  {
    f.(fileName := fileName, subscriber := subscriber)
  }

  /** Applying the update twice is applying it once, and of two updates the
      last one wins. */
  lemma UpdateLastWins(f: AudioFile, fileName: string, subscriber: string, fileName2: string, subscriber2: string)
    ensures var g := WithNameAndSubscriber(f, fileName, subscriber);
      && WithNameAndSubscriber(g, fileName, subscriber) == g
      && WithNameAndSubscriber(g, fileName2, subscriber2) == WithNameAndSubscriber(f, fileName2, subscriber2)
  {
  }

  class AudioFilesRepository {
    /** The AudioFiles table, by id. */
    var audioFiles: map<Guid, AudioFile>

    ghost predicate Valid()
      reads this
    {
      forall id | id in audioFiles :: audioFiles[id].id == id
    }

    constructor ()
      ensures Valid() && audioFiles == map[]
    {
      audioFiles := map[];
    }

    /** `UploadFile`: add the record under the key the table generates for
        it, and return that key; when `SaveChanges` throws (`saveFails`)
        nothing is stored. */
    method UploadFile(file: AudioFile, newId: Guid, saveFails: bool) returns (r: Result<Guid>)
      requires Valid() && newId !in audioFiles
      modifies this
      ensures Valid()
      ensures saveFails ==> r == Err(DbSaveFailure) && audioFiles == old(audioFiles)
      ensures !saveFails ==> r == Ok(newId) && audioFiles == old(audioFiles)[newId := file.(id := newId)]
      ensures r.Ok? ==> GetAudioStream(r.value) == Ok(file.file)
    {
      if saveFails {
        return Err(DbSaveFailure);
      }
      audioFiles := audioFiles[newId := file.(id := newId)];
      return Ok(newId);
    }

    /** `AddAudioMetadata`: overwrite the file name and subscriber of a
        stored row; when `SaveChanges` throws (`saveFails`) the table keeps
        the old row. */
    method AddAudioMetadata(audioId: Guid, fileName: string, subscriber: string, saveFails: bool) returns (r: Result<()>)
      requires Valid()
      modifies this
      ensures Valid()
      ensures audioId !in old(audioFiles) ==> r == Err(NotFoundException) && audioFiles == old(audioFiles)
      ensures audioId in old(audioFiles) && saveFails ==> r == Err(DbSaveFailure) && audioFiles == old(audioFiles)
      ensures audioId in old(audioFiles) && !saveFails ==>
        r == Ok(())
        && audioFiles == old(audioFiles)[audioId := WithNameAndSubscriber(old(audioFiles)[audioId], fileName, subscriber)]
      ensures GetAudioStream(audioId) == old(GetAudioStream(audioId))
    {
      if audioId !in audioFiles {
        return Err(NotFoundException);
      }
      if saveFails {
        return Err(DbSaveFailure);
      }
      audioFiles := audioFiles[audioId := WithNameAndSubscriber(audioFiles[audioId], fileName, subscriber)];
      return Ok(());
    }

    /** `GetAudioStreamAsync`: the stored bytes. */
    function GetAudioStream(audioId: Guid): (r: Result<seq<byte>>)
      reads this
      ensures r.Ok? <==> audioId in audioFiles
      ensures r.Err? ==> r.error == NotFoundException
      ensures r.Ok? ==> r.value == audioFiles[audioId].file
    {
      if audioId !in audioFiles then Err(NotFoundException) else Ok(audioFiles[audioId].file)
    }
  }
}

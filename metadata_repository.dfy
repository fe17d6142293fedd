/** MetadataRepository: the Metadatas table of technical metadata, each row
    pointing at a row of the Audios table. */
module Metadatas {
  import opened Common

  /** A row of the Audios table (`Entities/Audio.cs`); this repository only
      reads it. */
  datatype Audio = Audio(id: int, fileName: string, path: string)

  /** A row of the Metadatas table. */
  datatype Metadata = Metadata(
    id: int,
    audioId: int,
    audioBitrate: int,
    mimeType: string,
    duration: int,
    title: string,
    album: string,
    performers: string)

  /** The shared MetadataModel. */
  datatype MetadataModel = MetadataModel(
    audioBitrate: int,
    mimeType: string,
    duration: int,
    title: string,
    album: string,
    performers: string)

  /** MetadataModelWithAudioId: a MetadataModel and the encoded audio id. */
  datatype MetadataModelWithAudioId = MetadataModelWithAudioId(audioId: string, meta: MetadataModel)

  /** The row `CreateMetadataAsync` builds: the model's fields, the given
      audio id, and the key the table assigns. */
  function NewMetadata(id: int, model: MetadataModelWithAudioId, audioId: int): (row: Metadata)
    ensures ModelOf(row) == model.meta
    ensures row.audioId == audioId && row.id == id
  {
    var m := model.meta;
    Metadata(id, audioId, m.audioBitrate, m.mimeType, m.duration, m.title, m.album, m.performers)
  }

  /** The fields of a row as a MetadataModel. */
  function ModelOf(row: Metadata): MetadataModel
  {
    MetadataModel(row.audioBitrate, row.mimeType, row.duration, row.title, row.album, row.performers)
  }

  /** Some audio row has the given id. */
  predicate AudioExists(audios: seq<Audio>, audioId: int)
  {
    exists i | 0 <= i < |audios| :: audios[i].id == audioId
  }

  /** The primary key of the Metadatas table. */
  ghost predicate DistinctIds(rows: seq<Metadata>)
  {
    forall i, j | 0 <= i < j < |rows| :: rows[i].id != rows[j].id
  }

  /** `FirstOrDefault(x => x.AudioId == audioId)`: the index of the first row
      for the audio, or None. */
  function FirstFor(rows: seq<Metadata>, audioId: int): (r: Option<nat>)
    ensures r.None? <==> forall i | 0 <= i < |rows| :: rows[i].audioId != audioId
    ensures r.Some? ==>
      && r.value < |rows| && rows[r.value].audioId == audioId
      && (forall j | 0 <= j < r.value :: rows[j].audioId != audioId)
  {
    if |rows| == 0 then None
    else if rows[0].audioId == audioId then Some(0)
    else
      var rest := FirstFor(rows[1..], audioId);
      assert forall i | 1 <= i < |rows| :: rows[i] == rows[1..][i - 1];
      if rest.None? then None else Some(rest.value + 1)
  }

  /** Appending a row leaves the first row of every audio that already had
      one where it was, and makes the new row the first of an audio that had
      none. */
  lemma {:induction false} FirstForAppend(rows: seq<Metadata>, row: Metadata, audioId: int)
    ensures FirstFor(rows + [row], audioId) ==
      if FirstFor(rows, audioId).Some? then FirstFor(rows, audioId)
      else if row.audioId == audioId then Some(|rows|)
      else None
  {
    var all := rows + [row];
    var before := FirstFor(rows, audioId);
    var after := FirstFor(all, audioId);
    assert forall i | 0 <= i < |rows| :: all[i] == rows[i];
    if before.Some? {
      assert all[before.value] == rows[before.value];
    } else if row.audioId == audioId {
      assert all[|rows|].audioId == audioId;
    }
  }

  class MetadataRepository {
    /** The Audios table, read for the foreign-key check. */
    var audios: seq<Audio>
    /** The Metadatas table, in storage order. */
    var metadatas: seq<Metadata>

    /** The Metadatas key is unique, and audio ids, which the identity
        column of Audios hands out, are never negative. */
    ghost predicate Valid()
      reads this
    {
      && DistinctIds(metadatas)
      && (forall i | 0 <= i < |audios| :: audios[i].id >= 0)
      && (forall i | 0 <= i < |metadatas| :: metadatas[i].audioId >= 0)
    }

    constructor (audios: seq<Audio>)
      requires forall i | 0 <= i < |audios| :: audios[i].id >= 0
      ensures Valid() && this.audios == audios && metadatas == []
    {
      this.audios := audios;
      metadatas := [];
    }

    /** A key no stored row has: what the table's identity column hands out. */
    predicate IsFreshId(id: int)
      reads this
    {
      forall i | 0 <= i < |metadatas| :: metadatas[i].id != id
    }

    /** `CreateMetadataAsync`: refuse an audio id with no Audio row, otherwise
        add one row copying the model. `saveFails` says whether
        `SaveChanges` throws, in which case nothing is stored. */
    method CreateMetadata(model: MetadataModelWithAudioId, audioId: int, newId: int, saveFails: bool)
      returns (r: Result<Metadata>)
      requires Valid() && IsFreshId(newId)
      modifies this`metadatas
      ensures Valid()
      ensures !AudioExists(audios, audioId) ==> r == Err(NotFoundException) && metadatas == old(metadatas)
      ensures AudioExists(audios, audioId) && saveFails ==> r == Err(DbSaveFailure) && metadatas == old(metadatas)
      ensures AudioExists(audios, audioId) && !saveFails ==>
        r == Ok(NewMetadata(newId, model, audioId)) && metadatas == old(metadatas) + [r.value]
      ensures r.Ok? && old(FirstFor(metadatas, audioId)).None? ==> GetMetadata(audioId) == r
    {
      if forall i | 0 <= i < |audios| :: audios[i].id != audioId {
        return Err(NotFoundException);
      }
      if saveFails {
        return Err(DbSaveFailure);
      }
      var row := NewMetadata(newId, model, audioId);
      FirstForAppend(metadatas, row, audioId);
      metadatas := metadatas + [row];
      return Ok(row);
    }

    /** `GetMetadataAsync`: the first row for the audio. */
    function GetMetadata(audioId: int): (r: Result<Metadata>)
      reads this
      ensures r.Err? <==> forall i | 0 <= i < |metadatas| :: metadatas[i].audioId != audioId
      ensures r.Err? ==> r.error == NotFoundException
      ensures r.Ok? ==> exists i | 0 <= i < |metadatas| ::
        && metadatas[i] == r.value
        && r.value.audioId == audioId
        && (forall j | 0 <= j < i :: metadatas[j].audioId != audioId)
    {
      var found := FirstFor(metadatas, audioId);
      if found.None? then Err(NotFoundException) else Ok(metadatas[found.value])
    }

    /** `GetAllMetadataAsync`: every row, in storage order. */
    method GetAllMetadata() returns (rows: seq<Metadata>)
      ensures rows == metadatas
    {
      rows := metadatas;
    }
  }
}

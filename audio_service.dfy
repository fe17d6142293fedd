/** AudioService: accepts an upload only after its leading bytes pass the
    signature check and its container parses, suggests technical metadata
    from the container's tags, and answers metadata and stream reads by the
    public (encoded) audio id. */
module AudioServices {
  import opened Common
  import opened Text
  import opened Externals
  import opened Validation
  import opened Metadatas

  /** What the service's audio repository keeps for one upload. */
  datatype StoredAudio = StoredAudio(content: seq<byte>, fileName: string)

  /** FileUploadModel: the public id of the new audio and the metadata
      suggested from its tags. */
  datatype FileUploadModel = FileUploadModel(audioId: string, suggested: MetadataModel)

  /** StreamModel: the audio's bytes and the MIME type to serve them with. */
  datatype StreamModel = StreamModel(stream: seq<byte>, mimeType: string)

  /** The placeholder for a missing tag. */
  const EmptyTag: string := "Unknown"

  /** A title or album as suggested: a blank tag becomes "Unknown". */
  function TagOrUnknown(s: string): (r: string)
    ensures !IsNullOrWhiteSpace(r)
    ensures IsNullOrWhiteSpace(s) ==> r == EmptyTag
    ensures !IsNullOrWhiteSpace(s) ==> r == s
  {
    assert !IsWhiteSpace(EmptyTag[0]);
    if IsNullOrWhiteSpace(s) then EmptyTag else s
  }

  /** The performers as suggested: "Unknown" when there are none, otherwise
      all of them joined with ",". */
  function PerformersText(performers: seq<string>): (r: string)
    ensures |performers| == 0 ==> r == EmptyTag
    ensures |performers| == 1 ==> r == performers[0]
    ensures |performers| > 0 ==> performers[0] <= r
  {
    if |performers| == 0 then EmptyTag else Join(",", performers)
  }

  /** The joined performers split back on "," give the performers, as long
      as no name holds a comma; no performers give "Unknown". */
  lemma PerformersRoundTrip(performers: seq<string>)
    requires forall i | 0 <= i < |performers| :: ',' !in performers[i]
    ensures |performers| == 0 ==> PerformersText(performers) == EmptyTag
    ensures |performers| > 0 ==> Split(PerformersText(performers), ',') == performers
  {
    if |performers| > 0 {
      SplitJoin(performers, ',');
    }
  }

  /** TagLib's MIME type with its "taglib" prefix renamed to "audio". */
  function MimeTypeOf(tagLibMime: string): (r: string)
    ensures (forall i :: !OccursAt(tagLibMime, "taglib", i)) ==> r == tagLibMime
  {
    ReplaceKeepsAbsent(tagLibMime, "taglib", "audio");
    Replace(tagLibMime, "taglib", "audio")
  }

  /** A TagLib MIME type "taglib" + rest becomes "audio" + rest when "taglib"
      does not occur again in the rest. */
  lemma MimeTypeRenamed(rest: string)
    requires forall i :: !OccursAt(rest, "taglib", i)
    ensures MimeTypeOf("taglib" + rest) == "audio" + rest
  {
    var s := "taglib" + rest;
    assert s[..6] == "taglib";
    assert s[6..] == rest;
    ReplaceAbsent(rest, "taglib", "audio");
  }

  /** The MP3 case: "taglib/mp3" is served as "audio/mp3". */
  lemma Mp3MimeType()
    ensures MimeTypeOf("taglib/mp3") == "audio/mp3"
  {
    MimeTypeRenamed("/mp3");
    assert "taglib" + "/mp3" == "taglib/mp3";
  }

  /** A TimeSpan's whole milliseconds (the cast of `TotalMilliseconds`). */
  function DurationMillis(ticks: nat): (ms: nat)
    ensures ms * 10000 <= ticks < (ms + 1) * 10000
  {
    ticks / 10000
  }

  /** The metadata suggested for a parsed container. */
  function SuggestedMetadata(f: TagFile): (m: MetadataModel)
    ensures !IsNullOrWhiteSpace(m.title) && !IsNullOrWhiteSpace(m.album)
    ensures !IsNullOrWhiteSpace(f.tag.title) ==> m.title == f.tag.title
    ensures IsNullOrWhiteSpace(f.tag.title) ==> m.title == EmptyTag
    ensures !IsNullOrWhiteSpace(f.tag.album) ==> m.album == f.tag.album
    ensures IsNullOrWhiteSpace(f.tag.album) ==> m.album == EmptyTag
    ensures m.performers == PerformersText(f.tag.performers)
    ensures m.mimeType == MimeTypeOf(f.mimeType)
    ensures m.audioBitrate == f.audioBitrate
    ensures m.duration * 10000 <= f.durationTicks < (m.duration + 1) * 10000
  {
    MetadataModel(
      f.audioBitrate,
      MimeTypeOf(f.mimeType),
      DurationMillis(f.durationTicks),
      TagOrUnknown(f.tag.title),
      TagOrUnknown(f.tag.album),
      PerformersText(f.tag.performers))
  }

  /** `Stream.Read` of `n` bytes into a fresh zeroed buffer: the content's
      first bytes, then zeros where the content is shorter. */
  function Padded(content: seq<byte>, n: nat): seq<byte>
  {
    seq(n, i requires 0 <= i < n => if i < |content| then content[i] else 0)
  }

  /** Reads the leading `size` bytes of the content into a new buffer. */
  method ReadPrefix(content: seq<byte>, size: nat) returns (data: seq<byte>)
    ensures data == Padded(content, size)
    ensures |data| == size
    ensures Take(content, size) == data[..if |content| < size then |content| else size]
  {
    var buffer := new byte[size](_ => 0);
    var n := if |content| < size then |content| else size;
    var i := 0;
    while i < n
      invariant 0 <= i <= n
      invariant forall j | 0 <= j < size :: buffer[j] == if j < i then content[j] else 0
    {
      buffer[i] := content[i];
      i := i + 1;
    }
    data := buffer[..];
  }

  /** The zeros after a short content never change the verdict: for a buffer
      of at least `MaxSize()` bytes, the check on the padded buffer is the
      check on the content itself. */
  lemma ZeroPaddingHarmless(extension: string, content: seq<byte>, n: nat)
    requires n >= MaxSize()
    ensures Accepts(extension, Padded(content, n)) == Accepts(extension, content)
  {
    MaxSizeIsThree();
    NoMagicEndsInZero();
    var data := Padded(content, n);
    forall i | 0 <= i < |Signatures|
      ensures Matches(Signatures[i], extension, data) == Matches(Signatures[i], extension, content)
    {
      var m := Signatures[i].magic;
      var k := |m|;
      assert Take(data, k) == data[..k];
      if |content| >= k {
        assert data[..k] == content[..k];
      } else {
        assert data[k - 1] == 0;
        assert data[..k][k - 1] != m[k - 1];
      }
    }
  }

  /** One entry of `GetAllMetadataAsync`: the row's fields under the
      encoded audio id. */
  function WithEncodedId(codec: Codec, row: Metadata): MetadataModelWithAudioId
  {
    MetadataModelWithAudioId(codec.encode(row.audioId), ModelOf(row))
  }

  class AudioService {
    /** The audio repository, by the id it hands out. */
    var audios: map<int, StoredAudio>
    /** The metadata repository. */
    const metadataRepo: MetadataRepository
    /** The Hashids instance. */
    const codec: Codec
    /** TagLib reading a container, given its file name and bytes. */
    const readTags: (string, seq<byte>) -> TagParse

    ghost predicate Valid()
      reads this, metadataRepo
    {
      DecodeInvertsEncode(codec) && metadataRepo.Valid()
    }

    constructor (metadataRepo: MetadataRepository, codec: Codec, readTags: (string, seq<byte>) -> TagParse)
      requires DecodeInvertsEncode(codec) && metadataRepo.Valid()
      ensures Valid() && audios == map[]
      ensures this.metadataRepo == metadataRepo && this.codec == codec && this.readTags == readTags
    {
      audios := map[];
      this.metadataRepo := metadataRepo;
      this.codec := codec;
      this.readTags := readTags;
    }

    /** `CreateAudioFileAsync`: check the leading bytes against the
        extension, parse the container, and only then store the audio and
        answer with its encoded id and the suggested metadata. The
        repository hands out `allocatedId`; `createFails` says whether its
        create throws, which the service lets through. */
    method CreateAudioFile(content: seq<byte>, fileName: string, allocatedId: nat, createFails: bool)
      returns (r: Result<FileUploadModel>)
      requires Valid() && allocatedId !in audios
      modifies this`audios
      ensures Valid()
      ensures !Accepts(GetExtension(fileName), content) ==>
        r == Err(ValidationFailedException) && audios == old(audios)
      ensures Accepts(GetExtension(fileName), content) && readTags(fileName, content).Corrupt? ==>
        r == Err(ValidationFailedException) && audios == old(audios)
      ensures Accepts(GetExtension(fileName), content) && readTags(fileName, content).Unreadable? ==>
        r == Err(TagParseFailure) && audios == old(audios)
      ensures Accepts(GetExtension(fileName), content) && readTags(fileName, content).Parsed? && createFails ==>
        r == Err(DbSaveFailure) && audios == old(audios)
      ensures Accepts(GetExtension(fileName), content) && readTags(fileName, content).Parsed? && !createFails ==>
        && r == Ok(FileUploadModel(codec.encode(allocatedId), SuggestedMetadata(readTags(fileName, content).file)))
        && audios == old(audios)[allocatedId := StoredAudio(content, fileName)]
      ensures r.Ok? ==> codec.decode(r.value.audioId) == Some(allocatedId)
    {
      var extension := GetExtension(fileName);
      var size := MaxSize();
      var data := ReadPrefix(content, size);
      ZeroPaddingHarmless(extension, content, size);
      var ok := CheckType(extension, data);
      if !ok {
        return Err(ValidationFailedException);
      }
      var parse := readTags(fileName, content);
      if parse.Corrupt? {
        return Err(ValidationFailedException);
      }
      if parse.Unreadable? {
        return Err(TagParseFailure);
      }
      if createFails {
        return Err(DbSaveFailure);
      }
      audios := audios[allocatedId := StoredAudio(content, fileName)];
      r := Ok(FileUploadModel(codec.encode(allocatedId), SuggestedMetadata(parse.file)));
    }

    /** `CreateAudioMetadataAsync`: decode the id, refuse an audio the
        repository does not hold, otherwise create the metadata row under
        the decoded id (`saveFails`: the metadata repository's save
        throws). */
    method CreateAudioMetadata(metadata: MetadataModelWithAudioId, rowId: int, saveFails: bool) returns (r: Result<()>)
      requires Valid() && metadataRepo.IsFreshId(rowId)
      modifies metadataRepo`metadatas
      ensures Valid()
      ensures codec.decode(metadata.audioId).None? ==>
        r == Err(IdDecodeFailure) && metadataRepo.metadatas == old(metadataRepo.metadatas)
      ensures codec.decode(metadata.audioId).Some? && codec.decode(metadata.audioId).value !in audios ==>
        r == Err(NotFoundException) && metadataRepo.metadatas == old(metadataRepo.metadatas)
      ensures codec.decode(metadata.audioId).Some? && codec.decode(metadata.audioId).value in audios ==>
        var id := codec.decode(metadata.audioId).value;
        if AudioExists(metadataRepo.audios, id) && !saveFails then
          r == Ok(()) && metadataRepo.metadatas == old(metadataRepo.metadatas) + [NewMetadata(rowId, metadata, id)]
        else if AudioExists(metadataRepo.audios, id) then
          r == Err(DbSaveFailure) && metadataRepo.metadatas == old(metadataRepo.metadatas)
        else
          r == Err(NotFoundException) && metadataRepo.metadatas == old(metadataRepo.metadatas)
      ensures r.Ok? && old(FirstFor(metadataRepo.metadatas, codec.decode(metadata.audioId).value)).None? ==>
        GetAudioMetadata(metadata.audioId) == Ok(metadata.meta)
    {
      var decoded := codec.decode(metadata.audioId);
      if decoded.None? {
        return Err(IdDecodeFailure);
      }
      var audioId := decoded.value;
      if audioId !in audios {
        return Err(NotFoundException);
      }
      var created := metadataRepo.CreateMetadata(metadata, audioId, rowId, saveFails);
      if created.Err? {
        return Err(created.error);
      }
      return Ok(());
    }

    /** `GetAllMetadataAsync`: every metadata row, in order, under its
        encoded audio id. */
    method GetAllMetadata() returns (result: seq<MetadataModelWithAudioId>)
      requires Valid()
      ensures |result| == |metadataRepo.metadatas|
      ensures forall i | 0 <= i < |result| :: result[i] == WithEncodedId(codec, metadataRepo.metadatas[i])
      ensures forall i | 0 <= i < |result| ::
        codec.decode(result[i].audioId) == Some(metadataRepo.metadatas[i].audioId)
    {
      var rows := metadataRepo.GetAllMetadata();
      result := [];
      var i := 0;
      while i < |rows|
        invariant 0 <= i <= |rows|
        invariant |result| == i
        invariant forall j | 0 <= j < i :: result[j] == WithEncodedId(codec, rows[j])
      {
        var row := rows[i];
        result := result + [MetadataModelWithAudioId(codec.encode(row.audioId), ModelOf(row))];
        i := i + 1;
      }
    }

    /** `GetAudioMetadataAsync`: the fields of the first metadata row of the
        decoded audio. */
    function GetAudioMetadata(audioIdHash: string): (r: Result<MetadataModel>)
      reads this, metadataRepo
      ensures codec.decode(audioIdHash).None? ==> r == Err(IdDecodeFailure)
      ensures codec.decode(audioIdHash).Some? ==>
        var found := metadataRepo.GetMetadata(codec.decode(audioIdHash).value);
        (found.Err? ==> r == Err(NotFoundException)) && (found.Ok? ==> r == Ok(ModelOf(found.value)))
    {
      var decoded := codec.decode(audioIdHash);
      if decoded.None? then Err(IdDecodeFailure)
      else
        var found := metadataRepo.GetMetadata(decoded.value);
        if found.Err? then Err(found.error) else Ok(ModelOf(found.value))
    }

    /** `GetAudioStreamAsync`: the audio's bytes with the MIME type of its
        first metadata row; an audio without metadata is not found. */
    function GetAudioStream(audioIdHash: string): (r: Result<StreamModel>)
      reads this, metadataRepo
      ensures codec.decode(audioIdHash).None? ==> r == Err(IdDecodeFailure)
      ensures r.Ok? ==>
        var id := codec.decode(audioIdHash).value;
        && id in audios && r.value.stream == audios[id].content
        && metadataRepo.GetMetadata(id).Ok?
        && r.value.mimeType == metadataRepo.GetMetadata(id).value.mimeType
      ensures codec.decode(audioIdHash).Some? && metadataRepo.GetMetadata(codec.decode(audioIdHash).value).Err? ==>
        r == Err(NotFoundException)
      ensures codec.decode(audioIdHash).Some? && codec.decode(audioIdHash).value !in audios ==>
        r == Err(NotFoundException)
      ensures codec.decode(audioIdHash).Some? ==>
        var id := codec.decode(audioIdHash).value;
        metadataRepo.GetMetadata(id).Ok? && id in audios ==> r.Ok?
    {
      var decoded := codec.decode(audioIdHash);
      if decoded.None? then Err(IdDecodeFailure)
      else
        var found := metadataRepo.GetMetadata(decoded.value);
        if found.Err? then Err(found.error)
        else if decoded.value !in audios then Err(NotFoundException)
        else Ok(StreamModel(audios[decoded.value].content, found.value.mimeType))
    }

    /** Looking up an encoded id finds the metadata stored under the id:
        the round trip the public ids rely on. */
    lemma EncodedLookup(audioId: nat)
      requires Valid()
      ensures GetAudioMetadata(codec.encode(audioId)).Ok? <==>
        exists i | 0 <= i < |metadataRepo.metadatas| :: metadataRepo.metadatas[i].audioId == audioId
      ensures GetAudioMetadata(codec.encode(audioId)).Ok? ==>
        GetAudioMetadata(codec.encode(audioId)).value == ModelOf(metadataRepo.GetMetadata(audioId).value)
    {
      assert codec.decode(codec.encode(audioId)) == Some(audioId);
    }
  }
}

# Logcast audio upload service — Dafny model

This project models the ingestion and storage core of the Logcast
recruitment service, an ASP.NET back end that accepts audio uploads, checks
them, stores their bytes and describes them with technical metadata.

- **Signature validator** (`Validation`, `file_validator.dfy`): a fixed
  table of (extension, magic prefix) pairs; an upload is recognised when its
  extension equals a table entry's ignoring case and its first bytes are
  exactly that entry's prefix. `CheckType` is the search loop, proved equal
  to the predicate `Accepts`, and `MaxSize` is the longest prefix (3).
- **Audio repository** (`Audios`, `audio_repository.dfy`): bytes go to a
  blob store, the description to an `Audio` row; when the row cannot be
  saved the blob is deleted again (a compensating action). The blob store
  is a `map<string, seq<byte>>`, the blob name an abstract function of id
  and file type, and the failing collaborator calls a `Faults` parameter.
- **Audio service** (`AudioServices`, `audio_service.dfy`): reads the first
  `MaxSize()` bytes of an upload, checks them, parses the container's tags,
  stores the audio and answers with a Hashids-encoded id and suggested
  metadata ("Unknown" for blank tags); it then serves metadata and streams
  by encoded id. Its metadata repository is the `MetadataRepository` class
  of this model; its audio repository, which has no implementation in this
  core, is a map from id to the stored upload.
- **Metadata, audio-file, subscription and file repositories**
  (`Metadatas`, `AudioFiles`, `Subscriptions`, `Files`): Entity Framework
  tables modelled as a `seq` (where lookups take the first match in storage
  order) or a `map` keyed by id, each in a class whose methods change it.
- **File service** (`FileServices`, `file_service.dfy`): rejects a
  non-audio extension before writing any file or row, writes the upload to disk
  under a unique name keeping its extension, records it, and fills in a
  file's details either wholesale from the caller or from its tags (a
  non-empty tag overwrites, an empty one keeps the stored value).

Shared pieces: `Common` (bytes, ids, `Option`, `Result` and the exceptions
the code throws, as values) and `Text` (the .NET string operations the code
relies on: `ToLower`, `IsNullOrWhiteSpace`, `Path.GetExtension`,
`string.Join`, `Split`, `Replace`). `Externals` describes the two foreign
libraries by what they return: TagLib's parse result and a Hashids codec
whose decode inverts its encode on non-negative ids (an assumption
`AudioService`'s `Valid()` carries, not an axiom).

Ids that a database or `Guid.NewGuid` would generate, the timestamped
unique file name, and the outcome of disk, blob and table writes are
parameters of the operations: every `SaveChanges` the code calls may throw
(`saveFails`), leaving the table as it was, and so may the create of the
audio repository behind `AudioService` (`createFails`). Each class's `Valid()` is its table's key or uniqueness
invariant, and every state-changing method states its whole new state.

The model follows the code in these places:

- A token that Hashids cannot decode makes `DecodeSingle` throw; the code
  does not turn this into not-found (`IdDecodeFailure` here).
- When the compensating blob delete itself throws, that exception replaces
  the original one (`StorageDeleteFailure`), and the blob stays.
- `AudioService.CreateAudioFileAsync` has no empty-input or content-type
  check; an upload is rejected only by the signature check, the tag parse,
  or a failure of the audio repository's create.
- `StoreAudioMetadataAsync` overwrites the creator unconditionally, blank
  included.
- `GetAudioStreamAsync` looks the metadata up first, so an audio without a
  metadata row is not found even if its bytes are stored; there is no
  distinct inconsistent-state error.

## Model

| member | source | states |
|---|---|---|
| Validation.SignatureTable | Logcast.Recruitment.Domain/Services/FileValidatorService.cs:20-33 | the table holds four entries, all with extension ".mp3" (lower-cased by the constructor), with magics FF FB, FF F3, FF F2 and 49 44 33 in that order |
| Validation.MaxPrefixLength | Logcast.Recruitment.Domain/Services/FileValidatorService.cs:35-38 | the maximum of a non-empty table bounds every magic length and is the length of some entry's magic |
| Validation.MaxSize | Logcast.Recruitment.Domain/Services/FileValidatorService.cs:35-38 | the required prefix length bounds every registered magic and is the length of one of them |
| Validation.MaxSizeIsThree | Logcast.Recruitment.Domain/Services/FileValidatorService.cs:35-38 | `MaxSize()` is 3 for the registered table |
| Validation.CheckType | Logcast.Recruitment.Domain/Services/FileValidatorService.cs:40-52 | the search loop returns true exactly when some signature's extension equals the given one ignoring case and the data's first bytes equal its magic |
| Validation.AcceptsExactly | Logcast.Recruitment.Domain/Services/FileValidatorService.cs:27-52 | a buffer is accepted iff the extension lower-cases to ".mp3" and the buffer starts with one of the four MP3 magics |
| Validation.AcceptsIgnoresCase | Logcast.Recruitment.Domain/Services/FileValidatorService.cs:42-43 | two extensions equal ignoring case get the same verdict for the same bytes |
| Validation.UpperCaseMp3 | Logcast.Recruitment.Domain/Services/FileValidatorService.cs:22 | ".MP3" and ".mp3" get the same verdict |
| Validation.ShortBufferNeverMatches | Logcast.Recruitment.Domain/Services/FileValidatorService.cs:45 | a buffer shorter than a signature's magic does not match it, without error |
| Validation.UnknownExtensionRejected | Logcast.Recruitment.Domain/Services/FileValidatorService.cs:42-51 | an extension other than ".mp3" ignoring case is rejected whatever the bytes |
| Validation.AppendKeepsAccepted | Logcast.Recruitment.Domain/Services/FileValidatorService.cs:45 | appending bytes to an accepted buffer keeps it accepted |
| Validation.PrefixSuffices | Logcast.Recruitment.Domain/Services/FileValidatorService.cs:35-45 | the verdict on a buffer equals the verdict on its first `MaxSize()` bytes |
| Validation.Mp3PrefixAccepted | Logcast.Recruitment.Domain/Services/FileValidatorService.cs:29-32 | under ".mp3", any buffer starting with a registered MP3 magic is accepted |
| Validation.Mp3PrefixesAccepted | Logcast.Recruitment.Domain/Services/FileValidatorService.cs:29-32 | under ".mp3", buffers starting FF FB, FF F3, FF F2 or 49 44 33 are accepted, whatever follows |
| Validation.TextFileRejected | Logcast.Recruitment.Domain/Services/FileValidatorService.cs:40-52 | the bytes of "test" named ".mp3" are rejected |
| Validation.NoMagicEndsInZero | Logcast.Recruitment.Domain/Services/FileValidatorService.cs:29-32 | every registered magic is non-empty and ends in a non-zero byte |
| Text.GetExtension | Logcast.Recruitment.Domain/Services/FileService.cs:43 | `Path.GetExtension`: the suffix from the last '.' that is neither the last character nor followed by a separator, and empty when there is none |
| Text.ExtensionOfAppended | Logcast.Recruitment.Domain/Services/FileService.cs:53 | appending an extension to any prefix gives a path with that extension |
| Audios.CompensationKeepsConsistent | Logcast.Recruitment.DataAccess/Repositories/AudioRepository.cs:43-54 | deleting the blob just written for an id with no row keeps every row's blob present, and restores the blob store when the name was free before |
| Audios.PutKeepsConsistent | Logcast.Recruitment.DataAccess/Repositories/AudioRepository.cs:43 | writing a blob keeps every row's blob present |
| Audios.WithMetadata | Logcast.Recruitment.DataAccess/Repositories/AudioRepository.cs:63-65 | the creator is always the given one, and a stored name that was not blank never becomes blank |
| Audios.MetadataUpdateRule | Logcast.Recruitment.DataAccess/Repositories/AudioRepository.cs:63-65 | for every row and arguments: the creator is set, a blank (null or whitespace) name keeps the stored name and any other replaces it, and id, file type and content type stay |
| Audios.PartialUpdate | Logcast.Recruitment.DataAccess/Repositories/AudioRepository.cs:63-65 | examples of the rule: an empty or all-space name leaves the name, "New Title" replaces it; creator "John" is set either way and no other field moves |
| Audios.AudioRepository.StoreAudioFile | Logcast.Recruitment.DataAccess/Repositories/AudioRepository.cs:32-55 | a taken id is refused with nothing written; a failed blob write adds no row; success stores blob and row, readable back with creator ""; a failed row save deletes the blob and rethrows (stores as before when the name was free), unless the delete throws, which replaces the error and leaves the blob |
| Audios.AudioRepository.StoreAudioMetadata | Logcast.Recruitment.DataAccess/Repositories/AudioRepository.cs:57-69 | an unknown id is not found and nothing changes; a save that throws changes nothing; otherwise only that row changes, by the partial-update rule, and the creator reads back |
| Audios.AudioRepository.GetAudioMetadata | Logcast.Recruitment.DataAccess/Repositories/AudioRepository.cs:71-77 | found exactly for a stored id, as a model of that row without bytes; otherwise `AudioNotFoundException` |
| Audios.AudioRepository.GetAudioFile | Logcast.Recruitment.DataAccess/Repositories/AudioRepository.cs:79-89 | an unknown id is not found; for a stored id in a consistent store, the row's model with exactly the bytes stored under its blob name |
| Metadatas.NewMetadata | Logcast.Recruitment.DataAccess/Repositories/MetadataRepository.cs:33-42 | the created row reads back as the model's six fields, and carries the given audio id and the assigned key |
| Metadatas.FirstFor | Logcast.Recruitment.DataAccess/Repositories/MetadataRepository.cs:51 | the index found holds the audio id and no earlier row does; None exactly when no row does |
| Metadatas.FirstForAppend | Logcast.Recruitment.DataAccess/Repositories/MetadataRepository.cs:44-54 | appending a row keeps every existing first match and makes the new row the first match of an audio that had none |
| Metadatas.MetadataRepository.CreateMetadata | Logcast.Recruitment.DataAccess/Repositories/MetadataRepository.cs:27-47 | an audio id with no Audio row is not found and nothing is added; a save that throws adds nothing; otherwise exactly the copied row is appended, existing rows untouched, and it is what a lookup then returns when the audio had no row before |
| Metadatas.MetadataRepository.GetMetadata | Logcast.Recruitment.DataAccess/Repositories/MetadataRepository.cs:49-54 | the first row in storage order with the audio id, or `NotFoundException` exactly when there is none |
| Metadatas.MetadataRepository.GetAllMetadata | Logcast.Recruitment.DataAccess/Repositories/MetadataRepository.cs:56-59 | every row in storage order, and nothing changes |
| AudioFiles.WithNameAndSubscriber | Logcast.Recruitment.DataAccess/Repositories/AudioFilesRepository.cs:46-47 | the metadata update sets file name and subscriber and keeps bytes, content type, id and dates |
| AudioFiles.UpdateLastWins | Logcast.Recruitment.DataAccess/Repositories/AudioFilesRepository.cs:46-49 | applying the update twice is applying it once, and of two updates the last wins |
| AudioFiles.AudioFilesRepository.UploadFile | Logcast.Recruitment.DataAccess/Repositories/AudioFilesRepository.cs:28-35 | a save that throws adds nothing; otherwise the record is added under the key the table assigns, that key is returned, and reading its stream gives the uploaded bytes |
| AudioFiles.AudioFilesRepository.AddAudioMetadata | Logcast.Recruitment.DataAccess/Repositories/AudioFilesRepository.cs:37-50 | an unknown id is not found and nothing changes; a save that throws changes nothing; otherwise only that row's file name and subscriber are overwritten, and its stream is unchanged |
| AudioFiles.AudioFilesRepository.GetAudioStream | Logcast.Recruitment.DataAccess/Repositories/AudioFilesRepository.cs:52-62 | exactly the stored bytes for a stored id, `NotFoundException` otherwise |
| Subscriptions.RegisterKeepsWellFormed | Logcast.Recruitment.DataAccess/Repositories/SubscriptionRepository.cs:29-33 | adding a subscription for an email nobody holds keeps emails unique and makes the email taken |
| Subscriptions.DeleteFreesEmail | Logcast.Recruitment.DataAccess/Repositories/SubscriptionRepository.cs:45-51 | removing a subscription keeps the table well formed and its email is then held by nobody |
| Subscriptions.SubscriptionRepository.RegisterSubscription | Logcast.Recruitment.DataAccess/Repositories/SubscriptionRepository.cs:27-36 | a registered email is refused and nothing is added; a save that throws adds nothing; otherwise exactly the new subscription is added, the unique-email invariant holds, and the returned id resolves to it |
| Subscriptions.SubscriptionRepository.GetSubscription | Logcast.Recruitment.DataAccess/Repositories/SubscriptionRepository.cs:38-43 | the stored subscription for a stored id, `UserNotFoundException` otherwise |
| Subscriptions.SubscriptionRepository.DeleteSubscription | Logcast.Recruitment.DataAccess/Repositories/SubscriptionRepository.cs:45-51 | an unknown id is not found and nothing changes; a save that throws removes nothing; otherwise exactly that subscription is removed and its email becomes registrable |
| Files.IndexOf | Logcast.Recruitment.DataAccess/Repositories/FileRepository.cs:37 | the position found holds the id and no earlier row does; None exactly when no row does |
| Files.IndexOfUnique | Logcast.Recruitment.DataAccess/Repositories/FileRepository.cs:35-40 | with distinct keys, the lookup of a row's id finds that row |
| Files.IndexOfUpdate | Logcast.Recruitment.DataAccess/Repositories/FileRepository.cs:47-51 | replacing a row by one with the same key leaves every other key's lookup unchanged |
| Files.FileRepository.AddFile | Logcast.Recruitment.DataAccess/Repositories/FileRepository.cs:27-33 | a save that throws adds nothing; otherwise exactly one row with the given name and path is appended, and the returned key finds it |
| Files.FileRepository.GetFile | Logcast.Recruitment.DataAccess/Repositories/FileRepository.cs:35-40 | a stored row with the id, or `FileNotFoundException` exactly when no row has it |
| Files.FileRepository.GetFiles | Logcast.Recruitment.DataAccess/Repositories/FileRepository.cs:42-45 | every row in order, and nothing changes |
| Files.FileRepository.UpdateFileDetails | Logcast.Recruitment.DataAccess/Repositories/FileRepository.cs:47-51 | the row with the given row's key is replaced and reads back as given; every other key reads as before; an update matching no row, or a save that throws, fails and changes nothing |
| AudioServices.TagOrUnknown | Logcast.Recruitment.Domain/Services/AudioService.cs:93-94 | the suggested title or album is never blank: a blank tag becomes "Unknown", any other is kept |
| AudioServices.PerformersText | Logcast.Recruitment.Domain/Services/AudioService.cs:95 | no performers give "Unknown", one performer gives that name, and several start with the first one |
| AudioServices.PerformersRoundTrip | Logcast.Recruitment.Domain/Services/AudioService.cs:95 | no performers give "Unknown"; joined performers split back on "," give the performers when no name holds a comma |
| AudioServices.MimeTypeOf | Logcast.Recruitment.Domain/Services/AudioService.cs:91 | a MIME type in which "taglib" does not occur is served unchanged |
| AudioServices.MimeTypeRenamed | Logcast.Recruitment.Domain/Services/AudioService.cs:91 | a TagLib MIME type "taglib" + rest is served as "audio" + rest |
| AudioServices.Mp3MimeType | Logcast.Recruitment.Domain/Services/AudioService.cs:91 | "taglib/mp3" becomes "audio/mp3" |
| AudioServices.DurationMillis | Logcast.Recruitment.Domain/Services/AudioService.cs:92 | the whole milliseconds of a duration: the largest count of milliseconds not exceeding its ticks |
| AudioServices.SuggestedMetadata | Logcast.Recruitment.Domain/Services/AudioService.cs:88-96 | the suggestion has the container's bitrate, its duration in whole milliseconds, its MIME type renamed, its performers as `PerformersText` gives them, and its title and album when not blank, "Unknown" otherwise |
| AudioServices.ReadPrefix | Logcast.Recruitment.Domain/Services/AudioService.cs:71-73 | the buffer has the requested size, starts with the content's first bytes and is zero after them |
| AudioServices.ZeroPaddingHarmless | Logcast.Recruitment.Domain/Services/AudioService.cs:71-76 | checking a zero-padded buffer of at least `MaxSize()` bytes gives the same verdict as checking the content itself |
| AudioServices.AudioService.CreateAudioFile | Logcast.Recruitment.Domain/Services/AudioService.cs:64-112 | an upload failing the signature check, or whose container is corrupt, is a validation failure with nothing stored; other parse errors, and a failure of the repository's create, propagate with nothing stored; otherwise the audio is stored once and the answer is the encoded new id, which decodes back to it, with the suggested metadata |
| AudioServices.AudioService.CreateAudioMetadata | Logcast.Recruitment.Domain/Services/AudioService.cs:114-123 | an undecodable id fails and an id the audio repository does not hold is not found, with no row created; the metadata repository's refusal or failed save propagates with no row created; otherwise the metadata repository's create runs once with the decoded id, and the metadata then reads back by the encoded id |
| AudioServices.AudioService.GetAllMetadata | Logcast.Recruitment.Domain/Services/AudioService.cs:125-142 | one entry per metadata row, in order, with the row's fields and its encoded audio id, which decodes back to the row's audio id |
| AudioServices.AudioService.GetAudioMetadata | Logcast.Recruitment.Domain/Services/AudioService.cs:144-158 | the fields of the first metadata row of the decoded id; not found when it has none |
| AudioServices.AudioService.GetAudioStream | Logcast.Recruitment.Domain/Services/AudioService.cs:160-166 | succeeds exactly when the id decodes, has a metadata row and has stored bytes, giving those bytes with the first metadata row's MIME type; not found without a metadata row or without stored bytes |
| AudioServices.AudioService.EncodedLookup | Logcast.Recruitment.Domain/Services/AudioService.cs:144-147 | an encoded non-negative id finds metadata exactly when a row for the id exists, and then that row's fields |
| FileServices.RegexAccepts | Logcast.Recruitment.Domain/Services/FileService.cs:45-48 | the pattern as written; whatever it accepts contains a '.' |
| FileServices.IsAudioExtension | Logcast.Recruitment.Domain/Services/FileService.cs:45-48 | the intended whitelist; an accepted extension is a '.' and two to four characters, none a line feed |
| FileServices.TrailingLineFeedAccepted | Logcast.Recruitment.Domain/Services/FileService.cs:43-51 | "song.mp3" followed by a line feed has extension ".mp3" plus line feed, which the pattern accepts but which is not an audio extension |
| FileServices.RegexAgreesOffLineFeed | Logcast.Recruitment.Domain/Services/FileService.cs:45-48 | on every extension not ending in a line feed, the pattern accepts exactly the whitelisted extensions |
| FileServices.WhitelistExamples | Logcast.Recruitment.Domain/Services/FileService.cs:45-48 | ".MP3" and ".mp3" are accepted, the empty extension is rejected |
| FileServices.WhitelistIgnoresCase | Logcast.Recruitment.Domain/Services/FileService.cs:48 | extensions equal ignoring case get the same verdict |
| FileServices.StoredPath | Logcast.Recruitment.Domain/Services/FileService.cs:36-53 | the stored path lies in the TempFiles directory under the base path and ends with the upload's extension |
| FileServices.StoredPathKeepsExtension | Logcast.Recruitment.Domain/Services/FileService.cs:53 | the stored path's extension is the upload's extension |
| FileServices.FileTypeOf | Logcast.Recruitment.Domain/Services/FileService.cs:127 | the type is the part of the MIME type after its last '/': a suffix holding no '/', and either the whole MIME type or preceded by a '/' |
| FileServices.FileTypeWithoutSlash | Logcast.Recruitment.Domain/Services/FileService.cs:127 | a MIME type without '/' is its own type |
| FileServices.FileTypeOfMpeg | Logcast.Recruitment.Domain/Services/FileService.cs:127 | "audio/mpeg" has type "mpeg" |
| FileServices.Merge | Logcast.Recruitment.Domain/Services/FileService.cs:101-127 | the merge keeps id, name, path and track number, and always takes bitrate, size, duration in seconds and type from the container |
| FileServices.MergeDescriptive | Logcast.Recruitment.Domain/Services/FileService.cs:101-119 | artist, album, title and genre take the tag's value when it is non-empty and keep the stored one otherwise |
| FileServices.MergeIdempotent | Logcast.Recruitment.Domain/Services/FileService.cs:101-127 | extracting the same tags twice gives the row extracting them once gives |
| FileServices.WithDetails | Logcast.Recruitment.Domain/Services/FileService.cs:137-141 | the five descriptive fields take the arguments, blank included; id, name, path and technical fields stay |
| FileServices.WithDetailsLastWins | Logcast.Recruitment.Domain/Services/FileService.cs:137-141 | of two full overwrites the last one wins |
| FileServices.FileService.AddFile | Logcast.Recruitment.Domain/Services/FileService.cs:34-68 | a non-audio extension is refused before any write; a failed write is an `IOException` with no row added (a partial file may remain); a failed table save leaves the written file without a row; otherwise the bytes are on disk under the unique path and one row records the upload's name and that path |
| FileServices.FileService.GetFile | Logcast.Recruitment.Domain/Services/FileService.cs:70-74 | the repository's row for the id, or `FileNotFoundException` |
| FileServices.FileService.GetFiles | Logcast.Recruitment.Domain/Services/FileService.cs:90-94 | one entry per stored row, in order |
| FileServices.FileService.UpdateMetadata | Logcast.Recruitment.Domain/Services/FileService.cs:134-144 | an unknown file is not found and a save that throws changes nothing; otherwise the file's row, in its place, is replaced by the row with its five descriptive fields overwritten, blank included, and other files are unchanged |
| FileServices.FileService.ExtractMetadata | Logcast.Recruitment.Domain/Services/FileService.cs:96-132 | an unknown file, a missing file on disk, an unparsable container or a save that throws fails with nothing changed; otherwise the file's row, in its place, is replaced by the merge of the row with the tags, and other files are unchanged |

## Left out

- Async, cancellation tokens, stream seeking and the in-memory stream copy: streams are byte sequences.
- AudioServices.ReadPrefix: assumes `Stream.Read` fills the buffer as far as the content allows; a stream may legally return fewer bytes.
- TagLib parsing is an abstract function from file name (or path) and bytes to a parse result; only `CorruptFileException` is distinguished from other parse failures.
- Hashids encoding is an abstract codec; only decode-after-encode is relied on. Decoding of strings `Encode` never produced is not constrained.
- `Audio.FileName` is an abstract function of id and file type, assumed to give different audios different names. Entities/Audio.cs does not match the constructor the repository calls, so the derivation cannot be read off.
- Ids generated by the database or `Guid.NewGuid`, and the timestamped unique file name, are parameters; the caller supplies keys no row has.
- FileStorage.cs and the blob store's own failure behaviour: failures are the `Faults` flags, and a missing blob on read is `StorageReadFailure`.
- `FileService.GetAudioStreamAsync` and directory creation in `AddFileAsync`: plain filesystem I/O. The disk is a map from path to bytes, and a file missing at tag-extraction time is an `IOException`.
- The audio repository behind `AudioService` has no implementation in this core; it is a map from id to stored audio, its create either stores the upload under the allocated id or throws with nothing stored, and its `GetAudioAsync` on an unknown id is taken to be not-found.
- Entities/File.cs and FileModel are not part of this model: the File fields are those the file service assigns, and `ToDomainModel` is taken to copy them, so the file service returns rows.
- `GetSubscription` returns the subscription row rather than the SubscriberModel it maps to; the sign-up date is not modelled.
- Email uniqueness uses exact string equality; the database's collation may compare case-insensitively. Concurrent registrations racing past the check are not modelled.
- A `SaveChanges` that throws is modelled as the table left as it was; Entity Framework keeps the failed change pending in its context, where a later save could still commit it.
- Files.FileRepository.UpdateFileDetails: an update whose key matches no row fails with `DbUpdateConcurrencyException`; Entity Framework would instead insert an entity whose key is 0.
- AudioFiles.AudioFilesRepository.UploadFile: the row is stored under the key the table assigns; a record arriving with its own non-empty id would keep that id.
- Case folding is ASCII-only (`ToLower`, `InvariantCultureIgnoreCase`); null strings are the empty string.
- Durations: `TotalMilliseconds` cast to an integer is whole milliseconds of non-negative ticks, and `TotalSeconds` is an exact real rather than a double.
- AudioController, the React client, migrations, DI wiring, AudioFilesService and SubscriptionService (delegation only) are outside the core.
- The integration-test message "Only audio/mpeg content is supported" comes from no code in this core.

## Findings

| source | as written | input that shows it | evidently intended | confidence | as-written member | corrected member |
|---|---|---|---|---|---|---|
| Logcast.Recruitment.Domain/Services/FileService.cs:45-48 | the whitelist pattern ends in `$`, which in .NET also matches before a final line feed, so an extension ending in a line feed passes | an upload named "song.mp3" followed by a line feed: its extension is ".mp3" plus line feed, and it is accepted by the whitelist | only the listed extensions are accepted | not executed; medium | FileServices.TrailingLineFeedAccepted | FileServices.IsAudioExtension |

The as-written pattern is `FileServices.RegexAccepts`; the corrected
whitelist `FileServices.IsAudioExtension` is what `FileService.AddFile`
checks, and `FileServices.RegexAgreesOffLineFeed` proves the two agree on
every other extension `Path.GetExtension` can return.

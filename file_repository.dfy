/** FileRepository: the Files table of uploaded audio files stored on disk,
    with their descriptive and technical details. */
module Files {
  import opened Common

  /** A row of the Files table: name and path are set on upload, the rest
      by the metadata operations (unset text is "", unset numbers 0). */
  datatype File = File(
    id: int,
    name: string,
    path: string,
    artist: string,
    album: string,
    trackTitle: string,
    genre: string,
    trackNumber: string,
    bitrate: int,
    duration: real,
    size: int,
    fileType: string)

  /** `new File(name, path)` once the table has given it its key. */
  function NewFile(id: int, name: string, path: string): File
  {
    File(id, name, path, "", "", "", "", "", 0, 0.0, 0, "")
  }

  /** The primary key of the Files table. */
  ghost predicate DistinctIds(files: seq<File>)
  {
    forall i, j | 0 <= i < j < |files| :: files[i].id != files[j].id
  }

  /** `FirstOrDefault(s => s.Id == fileId)`: the position of the first row
      with the id, or None. */
  function IndexOf(files: seq<File>, fileId: int): (r: Option<nat>)
    ensures r.None? <==> forall i | 0 <= i < |files| :: files[i].id != fileId
    ensures r.Some? ==>
      && r.value < |files| && files[r.value].id == fileId
      && (forall j | 0 <= j < r.value :: files[j].id != fileId)
  {
    if |files| == 0 then None
    else if files[0].id == fileId then Some(0)
    else
      var rest := IndexOf(files[1..], fileId);
      assert forall i | 1 <= i < |files| :: files[i] == files[1..][i - 1];
      if rest.None? then None else Some(rest.value + 1)
  }

  /** With distinct keys, the row found for an id is the only row with it. */
  lemma IndexOfUnique(files: seq<File>, i: nat)
    requires DistinctIds(files) && i < |files|
    ensures IndexOf(files, files[i].id) == Some(i)
  {
  }

  /** Replacing the row at `i` by one with the same key leaves every other
      key's lookup where it was. */
  lemma {:induction false} IndexOfUpdate(files: seq<File>, i: nat, f: File, fileId: int)
    requires i < |files| && files[i].id == f.id && fileId != f.id
    ensures IndexOf(files[i := f], fileId) == IndexOf(files, fileId)
  {
    var after := files[i := f];
    if |files| > 0 && files[0].id != fileId && i > 0 {
      assert after[1..] == files[1..][i - 1 := f];
      IndexOfUpdate(files[1..], i - 1, f, fileId);
    } else if |files| > 0 && files[0].id != fileId {
      assert after[1..] == files[1..];
    }
  }

  class FileRepository {
    /** The Files table, in storage order. */
    var files: seq<File>

    ghost predicate Valid()
      reads this
    {
      DistinctIds(files)
    }

    constructor ()
      ensures Valid() && files == []
    {
      files := [];
    }

    /** A key no stored row has: what the identity column hands out. */
    predicate IsFreshId(id: int)
      reads this
    {
      forall i | 0 <= i < |files| :: files[i].id != id
    }

    /** `AddFileAsync`: insert one row with the given name and path and
        return its key; when `SaveChanges` throws (`saveFails`) nothing is
        inserted. */
    method AddFile(name: string, path: string, newId: int, saveFails: bool) returns (r: Result<int>)
      requires Valid() && IsFreshId(newId)
      modifies this
      ensures Valid()
      ensures saveFails ==> r == Err(DbSaveFailure) && files == old(files)
      ensures !saveFails ==> r == Ok(newId) && files == old(files) + [NewFile(newId, name, path)]
      ensures r.Ok? ==> GetFile(r.value) == Ok(NewFile(newId, name, path))
    {
      if saveFails {
        return Err(DbSaveFailure);
      }
      files := files + [NewFile(newId, name, path)];
      IndexOfUnique(files, |files| - 1);
      return Ok(newId);
    }

    /** `GetFileAsync`. */
    function GetFile(fileId: int): (r: Result<File>)
      reads this
      ensures r.Err? <==> forall i | 0 <= i < |files| :: files[i].id != fileId
      ensures r.Err? ==> r.error == FileNotFoundException
      ensures r.Ok? ==> r.value.id == fileId && r.value in files
    {
      var found := IndexOf(files, fileId);
      if found.None? then Err(FileNotFoundException) else Ok(files[found.value])
    }

    /** `GetFilesAsync`: every row, in storage order. */
    method GetFiles() returns (rows: seq<File>)
      ensures rows == files
    {
      rows := files;
    }

    /** `UpdateFileDetails`: replace the stored row that has the given row's
        key; saving an update that matches no row fails, and so does a save
        that throws for another reason (`saveFails`). */
    method UpdateFileDetails(file: File, saveFails: bool) returns (r: Result<()>)
      requires Valid()
      modifies this
      ensures Valid()
      ensures old(IndexOf(files, file.id)).None? ==>
        r == Err(DbUpdateConcurrencyException) && files == old(files)
      ensures old(IndexOf(files, file.id)).Some? && saveFails ==>
        r == Err(DbSaveFailure) && files == old(files)
      ensures old(IndexOf(files, file.id)).Some? && !saveFails ==>
        r == Ok(()) && files == old(files)[old(IndexOf(files, file.id)).value := file]
      ensures r.Ok? ==> GetFile(file.id) == Ok(file)
      ensures forall id | id != file.id :: GetFile(id) == old(GetFile(id))
    {
      var found := IndexOf(files, file.id);
      if found.None? {
        return Err(DbUpdateConcurrencyException);
      }
      if saveFails {
        return Err(DbSaveFailure);
      }
      var i := found.value;
      forall id | id != file.id ensures IndexOf(files[i := file], id) == IndexOf(files, id) {
        IndexOfUpdate(files, i, file, id);
      }
      files := files[i := file];
      IndexOfUnique(files, i);
      return Ok(());
    }
  }
}

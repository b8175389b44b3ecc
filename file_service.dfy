/** `FileService`: product images under one storage directory. An upload is
    checked (present, no `..` in its name, at most 5 MiB, an image
    extension), then stored under a random UUID and its original extension. */
module ProductFiles {
  import opened Platform
  import opened JavaStrings
  import opened Paths

  const MaxFileSize := 5 * 1024 * 1024
  const EmptyFileMessage := "Nie można zapisać pustego pliku."
  const TraversalPrefix := "Nazwa pliku zawiera niedozwoloną ścieżkę: "
  const SizeMessage := "Rozmiar pliku przekracza dozwolony limit 5MB"
  const TypeMessage := "Dozwolone są tylko pliki obrazów (jpg, jpeg, png, gif)"
  const NotFoundPrefix := "Plik nie został znaleziony: "
  const ImageUrlPrefix := "/products/image/"
  const ImageExtensions := ["jpg", "jpeg", "png", "gif"]

  /** `getFileExtension`: the text after the last dot; "" for a null name or
      one without a dot. */
  function GetFileExtension(fileName: Option<string>): (r: string)
    ensures '.' !in r
    ensures fileName.None? || '.' !in fileName.value ==> r == ""
    ensures fileName.Some? && '.' in fileName.value ==> EndsWith(fileName.value, "." + r)
  {
    if fileName.None? then ""
    else
      var r := AfterLast(fileName.value, '.');
      assert '.' in fileName.value ==> fileName.value[|fileName.value| - |r| - 1..] == "." + r;
      r
  }

  /** `isImageExtension`: the lower-cased extension is one of the four. */
  predicate IsImageExtension(extension: string)
    ensures IsImageExtension(extension) ==> 3 <= |extension| <= 4
  {
    ToLower(extension) in ImageExtensions
  }

  /** An image extension is three or four ASCII letters, whatever their case. */
  lemma ImageExtensionIsLetters(extension: string)
    requires IsImageExtension(extension)
    ensures 3 <= |extension| <= 4
    ensures forall k :: 0 <= k < |extension| ==> IsAsciiLetter(extension[k])
  {
    var lower := ToLower(extension);
    forall k | 0 <= k < |extension| ensures IsAsciiLetter(extension[k]) {
      assert IsAsciiLetter(lower[k]);
    }
  }

  /** The check ignores case: upper-casing or lower-casing the extension does
      not change the verdict, and "" is never an image extension. */
  lemma ImageExtensionIgnoresCase(extension: string)
    ensures IsImageExtension(ToLower(extension)) == IsImageExtension(extension)
    ensures !IsImageExtension("")
  {
    assert ToLower(ToLower(extension)) == ToLower(extension);
  }

  /** `validateFile`: the first failing check throws, in the order the
      service makes them. A null name passes `cleanPath` unchanged and fails
      on the `..` test with a `NullPointerException`. */
  function ValidateFile(file: Option<MultipartFile>): (c: Completion)
    ensures file.None? || file.value.IsEmpty() ==> c == Abrupt(Storage(EmptyFileMessage))
    ensures file.Some? && !file.value.IsEmpty() && file.value.originalFilename.None? ==> c == Abrupt(NullPointer)
    ensures file.Some? && !file.value.IsEmpty() && file.value.originalFilename.Some?
      && Contains(file.value.originalFilename.value, "..")
      ==> c == Abrupt(Storage(TraversalPrefix + file.value.originalFilename.value))
    ensures file.Some? && !file.value.IsEmpty() && file.value.originalFilename.Some?
      && !Contains(file.value.originalFilename.value, "..") && file.value.Size() > MaxFileSize
      ==> c == Abrupt(Storage(SizeMessage))
    ensures c.Normal? <==>
      file.Some? && !file.value.IsEmpty() && file.value.originalFilename.Some?
      && !Contains(file.value.originalFilename.value, "..")
      && file.value.Size() <= MaxFileSize
      && IsImageExtension(ToLower(GetFileExtension(file.value.originalFilename)))
    ensures c.Abrupt? && c.exception != NullPointer ==> c.exception.Storage?
  {
    if file.None? || file.value.IsEmpty() then Abrupt(Storage(EmptyFileMessage))
    else if file.value.originalFilename.None? then Abrupt(NullPointer)
    else
      var fileName := file.value.originalFilename.value;
      if Contains(fileName, "..") then Abrupt(Storage(TraversalPrefix + fileName))
      else if file.value.Size() > MaxFileSize then Abrupt(Storage(SizeMessage))
      else if !IsImageExtension(ToLower(GetFileExtension(Some(fileName)))) then Abrupt(Storage(TypeMessage))
      else Normal
  }

  /** The size limit is inclusive: an acceptable image of exactly 5 MiB
      passes, and one byte more is refused for its size. */
  lemma SizeLimitBoundary(name: string, content: seq<byte>, extra: byte)
    requires !Contains(name, "..") && IsImageExtension(GetFileExtension(Some(name)))
    requires |content| == 5242880
    ensures ValidateFile(Some(MultipartFile(Some(name), content))) == Normal
    ensures ValidateFile(Some(MultipartFile(Some(name), content + [extra]))) == Abrupt(Storage(SizeMessage))
  {
    ImageExtensionIgnoresCase(GetFileExtension(Some(name)));
  }

  /** A name without a dot has no extension, so an otherwise acceptable file
      with such a name is refused as not an image. */
  lemma DotlessNameRejected(name: string, content: seq<byte>)
    requires '.' !in name && !Contains(name, "..")
    requires 0 < |content| <= MaxFileSize
    ensures ValidateFile(Some(MultipartFile(Some(name), content))) == Abrupt(Storage(TypeMessage))
  {
    ImageExtensionIgnoresCase("");
  }

  /** The name `saveFile` stores an upload under: the validation's verdict,
      then the UUID, a dot and the original extension in its original case. */
  function SavedName(file: Option<MultipartFile>, uuid: string): (r: Result<string>)
    requires IsUuidString(uuid)
    ensures r.Err? <==> ValidateFile(file).Abrupt?
    ensures r.Err? ==> r.error == ValidateFile(file).exception
    ensures r.Ok? ==> r.value == uuid + "." + GetFileExtension(file.value.originalFilename)
  {
    match ValidateFile(file)
    case Abrupt(e) => Err(e)
    case Normal => Ok(uuid + "." + GetFileExtension(file.value.originalFilename))
  }

  /** A UUID's text has no dot. */
  lemma UuidHasNoDot(uuid: string)
    requires IsUuidString(uuid)
    ensures '.' !in uuid
  {
    forall k | 0 <= k < |uuid| ensures uuid[k] != '.' {
    }
  }

  /** A UUID, a dot and ASCII letters: one dot, no slash and no `..`. */
  lemma UuidNameIsPlain(uuid: string, extension: string)
    requires IsUuidString(uuid)
    requires forall k :: 0 <= k < |extension| ==> IsAsciiLetter(extension[k])
    ensures '/' !in uuid + "." + extension && !Contains(uuid + "." + extension, "..")
  {
    var name := uuid + "." + extension;
    assert forall k :: 0 <= k < |name| && k != 36 ==> name[k] != '.' && name[k] != '/' by {
      forall k | 0 <= k < |name| && k != 36 ensures name[k] != '.' && name[k] != '/' {
        if k > 36 { assert name[k] == extension[k - 37]; }
      }
    }
    forall i | 0 <= i <= |name| ensures !OccursAt(name, "..", i) {
      if i + 2 <= |name| {
        assert name[i..i + 2][0] == name[i] && name[i..i + 2][1] == name[i + 1];
      }
    }
  }

  /** The stored name keeps the upload's extension and drops the rest of the
      original name: it is 37 characters of UUID and dot plus the extension,
      and contains neither a slash nor `..`. */
  lemma SavedNameShape(file: Option<MultipartFile>, uuid: string)
    requires IsUuidString(uuid) && SavedName(file, uuid).Ok?
    ensures var name := SavedName(file, uuid).value;
      GetFileExtension(Some(name)) == GetFileExtension(file.value.originalFilename)
      && |name| == 37 + |GetFileExtension(file.value.originalFilename)|
      && StartsWith(name, uuid + ".")
      && '/' !in name && !Contains(name, "..")
  {
    var extension := GetFileExtension(file.value.originalFilename);
    UuidHasNoDot(uuid);
    assert uuid + "." + extension == uuid + ['.'] + extension;
    AfterLastOfAppended(uuid, '.', extension);
    ImageExtensionIgnoresCase(extension);
    ImageExtensionIsLetters(extension);
    UuidNameIsPlain(uuid, extension);
  }

  /** `getFileUrl`: no address for a null or empty name, otherwise the image
      path with the name appended. */
  function GetFileUrl(fileName: Option<string>): (r: Option<string>)
    ensures r.None? <==> fileName.None? || fileName.value == ""
    ensures r.Some? ==> StartsWith(r.value, ImageUrlPrefix) && |r.value| == |ImageUrlPrefix| + |fileName.value|
  {
    if fileName.None? || fileName.value == "" then None else Some(ImageUrlPrefix + fileName.value)
  }

  /** The name is appended as it is, so it can be read back from the
      address. */
  lemma FileUrlNamesFile(fileName: string)
    requires fileName != ""
    ensures GetFileUrl(Some(fileName)).value[|ImageUrlPrefix|..] == fileName
  {
    assert (ImageUrlPrefix + fileName)[|ImageUrlPrefix|..] == fileName;
  }

  class FileService {
    const fileStorageLocation: string
    /** The storage directory's files, by path. */
    var files: map<string, seq<byte>>

    constructor (location: string, existing: map<string, seq<byte>>)
      ensures fileStorageLocation == location && files == existing
    {
      fileStorageLocation := location;
      files := existing;
    }

    /** `saveFile`: validation first, so a refused upload writes nothing; an
        accepted one is written under its new name, replacing any file of
        that name, and can then be loaded. */
    method SaveFile(file: Option<MultipartFile>, uuid: string) returns (r: Result<string>)
      requires IsUuidString(uuid)
      modifies this
      ensures r == SavedName(file, uuid)
      ensures r.Err? ==> files == old(files)
      ensures r.Ok? ==> files == old(files)[Resolve(fileStorageLocation, r.value) := file.value.content]
      ensures r.Ok? ==> LoadFileAsResource(r.value).Ok?
    {
      var valid := ValidateFile(file);
      if valid.Abrupt? {
        return Err(valid.exception);
      }
      var originalFileName := file.value.originalFilename;
      var fileExtension := GetFileExtension(originalFileName);
      var newFileName := uuid + "." + fileExtension;
      var targetLocation := Resolve(fileStorageLocation, newFileName);
      files := files[targetLocation := file.value.content];
      return Ok(newFileName);
    }

    /** `loadFileAsResource`: the stored file's path, or a `StorageException`
        naming the file when there is none. */
    function LoadFileAsResource(fileName: string): (r: Result<string>)
      reads this
      ensures r.Ok? <==> Resolve(fileStorageLocation, fileName) in files
      ensures r.Ok? ==> r.value == Resolve(fileStorageLocation, fileName)
      ensures r.Err? ==> r.error == Storage(NotFoundPrefix + fileName)
    {
      var filePath := Resolve(fileStorageLocation, fileName);
      if filePath in files then Ok(filePath) else Err(Storage(NotFoundPrefix + fileName))
    }

    /** `deleteFile`: removes the file if it is there; afterwards it cannot
        be loaded. */
    method DeleteFile(fileName: string)
      modifies this
      ensures files == old(files) - {Resolve(fileStorageLocation, fileName)}
      ensures LoadFileAsResource(fileName).Err?
    {
      files := files - {Resolve(fileStorageLocation, fileName)};
    }
  }
}

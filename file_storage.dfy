/** `FileStorageService`: book covers stored under an upload directory. A
    cover is accepted when its lower-cased extension is one of the configured
    extensions; it is stored under a name made from the book's title, eight
    characters of a random UUID and the original extension. */
module FileStorage {
  import opened Platform
  import opened JavaStrings
  import opened Paths

  const EmptyFileError := "Nie można zapisać pustego pliku"
  const MissingNameError := "Nazwa pliku jest wymagana"
  const ExtensionErrorPrefix := "Niedozwolone rozszerzenie pliku. Dozwolone: "

  /** `getFileExtension`: the text after the last dot, or "" without a dot. */
  function FileExtension(filename: string): (r: string)
    ensures '.' !in r
    ensures '.' !in filename ==> r == ""
    ensures '.' in filename ==> EndsWith(filename, "." + r)
  {
    var r := AfterLast(filename, '.');
    assert '.' in filename ==> filename[|filename| - |r| - 1..] == "." + r;
    r
  }

  /** `replaceAll("[^a-zA-Z0-9]", "_")`: every character outside the class
      becomes one underscore. */
  function Sanitize(title: string): (r: string)
    ensures |r| == |title|
    ensures forall k :: 0 <= k < |title| ==>
      r[k] == (if IsAsciiAlphanumeric(title[k]) then title[k] else '_')
  {
    seq(|title|, k requires 0 <= k < |title| => if IsAsciiAlphanumeric(title[k]) then title[k] else '_')
  }

  /** A sanitised text holds only letters, digits and underscores. */
  lemma SanitizedIsSafe(title: string)
    ensures forall k :: 0 <= k < |title| ==> IsAsciiAlphanumeric(Sanitize(title)[k]) || Sanitize(title)[k] == '_'
    ensures '.' !in Sanitize(title) && '/' !in Sanitize(title)
  {
    var r := Sanitize(title);
    forall k | 0 <= k < |r| ensures r[k] != '.' && r[k] != '/' {
    }
  }

  /** Sanitising twice changes nothing more. */
  lemma SanitizeIdempotent(title: string)
    ensures Sanitize(Sanitize(title)) == Sanitize(title)
  {
  }

  /** `generateUniqueFilename`: the sanitised title, `_`, the first eight
      characters of the UUID, `.` and the extension as the client sent it. */
  function GenerateUniqueFilename(bookTitle: string, uuid: string, extension: string): (r: string)
    requires IsUuidString(uuid)
    ensures |r| == |bookTitle| + 10 + |extension|
    ensures StartsWith(r, Sanitize(bookTitle) + "_")
    ensures forall k :: |bookTitle| + 1 <= k < |bookTitle| + 9 ==> IsLowerHexDigit(r[k])
  {
    Sanitize(bookTitle) + "_" + uuid[..8] + "." + extension
  }

  /** The generated name's extension is the one it was given. */
  lemma GeneratedExtension(bookTitle: string, uuid: string, extension: string)
    requires IsUuidString(uuid) && '.' !in extension
    ensures FileExtension(GenerateUniqueFilename(bookTitle, uuid, extension)) == extension
  {
    var head := Sanitize(bookTitle) + "_" + uuid[..8];
    assert GenerateUniqueFilename(bookTitle, uuid, extension) == head + ['.'] + extension;
    AfterLastOfAppended(head, '.', extension);
  }

  /** With an alphanumeric extension the generated name has a single dot and
      no slash, so it never leaves the upload directory, whatever the title. */
  lemma GeneratedNameIsPlain(bookTitle: string, uuid: string, extension: string)
    requires IsUuidString(uuid)
    requires forall k :: 0 <= k < |extension| ==> IsAsciiAlphanumeric(extension[k])
    ensures var r := GenerateUniqueFilename(bookTitle, uuid, extension);
      '/' !in r && !Contains(r, "..")
  {
    var r := GenerateUniqueFilename(bookTitle, uuid, extension);
    var n := |bookTitle|;
    SanitizedIsSafe(bookTitle);
    assert forall k :: 0 <= k < |r| && k != n + 9 ==> r[k] != '.' && r[k] != '/' by {
      forall k | 0 <= k < |r| && k != n + 9 ensures r[k] != '.' && r[k] != '/' {
        if k < n { assert r[k] == Sanitize(bookTitle)[k]; }
        else if n + 9 < k { assert r[k] == extension[k - n - 10]; }
      }
    }
    forall i | 0 <= i <= |r| ensures !OccursAt(r, "..", i) {
      if i + 2 <= |r| {
        assert r[i..i + 2][0] == r[i] && r[i..i + 2][1] == r[i + 1];
      }
    }
  }

  /** `allowedExtensions.toString()` as it appears in the rejection message. */
  function ListText(items: seq<string>): string
  {
    "[" + Join(items, ", ") + "]"
  }

  function ExtensionError(allowedExtensions: seq<string>): string
  {
    ExtensionErrorPrefix + ListText(allowedExtensions)
  }

  /** What `storeFile` answers: the checks in the order the service makes
      them, then the generated name. A null title fails only once the
      extension has been accepted, when the name is generated. */
  function StoreDecision(file: MultipartFile, bookTitle: Option<string>, allowedExtensions: seq<string>, uuid: string)
    : (r: Result<string>)
    requires IsUuidString(uuid)
    ensures file.IsEmpty() ==> r == Err(IllegalArgument(EmptyFileError))
    ensures !file.IsEmpty() && file.originalFilename.None? ==> r == Err(IllegalArgument(MissingNameError))
    ensures !file.IsEmpty() && file.originalFilename.Some?
      && ToLower(FileExtension(file.originalFilename.value)) !in allowedExtensions
      ==> r == Err(IllegalArgument(ExtensionError(allowedExtensions)))
    ensures r.Ok? <==>
      !file.IsEmpty() && file.originalFilename.Some?
      && ToLower(FileExtension(file.originalFilename.value)) in allowedExtensions && bookTitle.Some?
    ensures r.Ok? ==> FileExtension(r.value) == FileExtension(file.originalFilename.value)
    ensures r.Ok? ==> StartsWith(r.value, Sanitize(bookTitle.value) + "_")
  {
    if file.IsEmpty() then Err(IllegalArgument(EmptyFileError))
    else if file.originalFilename.None? then Err(IllegalArgument(MissingNameError))
    else
      var extension := FileExtension(file.originalFilename.value);
      if ToLower(extension) !in allowedExtensions then Err(IllegalArgument(ExtensionError(allowedExtensions)))
      else if bookTitle.None? then Err(NullPointer)
      else
        GeneratedExtension(bookTitle.value, uuid, extension);
        Ok(GenerateUniqueFilename(bookTitle.value, uuid, extension))
  }

  /** The allowed list is the configuration split on commas with nothing
      trimmed: with `jpg, png` configured, a `png` file is refused. */
  lemma UntrimmedConfiguration()
    ensures Split("jpg, png", ',') == ["jpg", " png"]
    ensures "png" !in Split("jpg, png", ',')
  {
    var config := "jpg" + [','] + " png";
    assert config == "jpg, png";
    PiecesOfField("jpg", ',', " png");
    PiecesWithoutSeparator(" png", ',');
    assert config[3] == ',';
    assert Split(config, ',') == ["jpg", " png"];
  }

  class FileStorageService {
    const uploadPath: string
    const allowedExtensions: seq<string>
    /** The upload directory's files, by path. */
    var files: map<string, seq<byte>>

    /** The directory's contents at start-up are `existing`. */
    constructor (uploadDir: string, extensions: string, existing: map<string, seq<byte>>)
      ensures uploadPath == uploadDir
      ensures allowedExtensions == Split(extensions, ',')
      ensures files == existing
    {
      uploadPath := uploadDir;
      allowedExtensions := Split(extensions, ',');
      files := existing;
    }

    /** `storeFile`: a rejected file writes nothing; an accepted one is
        written, replacing any file of that name, and its name returned. */
    method StoreFile(file: MultipartFile, bookTitle: Option<string>, uuid: string) returns (r: Result<string>)
      requires IsUuidString(uuid)
      modifies this
      ensures r == StoreDecision(file, bookTitle, allowedExtensions, uuid)
      ensures r.Ok? ==> files == old(files)[Resolve(uploadPath, r.value) := file.content]
      ensures r.Err? ==> files == old(files)
    {
      if file.IsEmpty() {
        return Err(IllegalArgument(EmptyFileError));
      }
      var originalFilename := file.originalFilename;
      if originalFilename.None? {
        return Err(IllegalArgument(MissingNameError));
      }
      var extension := FileExtension(originalFilename.value);
      if ToLower(extension) !in allowedExtensions {
        return Err(IllegalArgument(ExtensionError(allowedExtensions)));
      }
      if bookTitle.None? {
        return Err(NullPointer);
      }
      var filename := GenerateUniqueFilename(bookTitle.value, uuid, extension);
      var targetLocation := Resolve(uploadPath, filename);
      files := files[targetLocation := file.content];
      return Ok(filename);
    }

    /** `loadFile`: the name, parsed, resolved against the upload directory;
        an absolute name is its own path. */
    function LoadFile(filename: string): (r: string)
      ensures EndsWith(r, PathString(filename))
      ensures IsAbsolute(filename) ==> r == PathString(filename)
      ensures !IsAbsolute(filename) ==> StartsWith(r, PathString(uploadPath))
    {
      ResolveEndsWithName(uploadPath, filename);
      Resolve(uploadPath, filename)
    }

    /** `deleteFile`: removes the file if it exists; a missing file is not an
        error. */
    method DeleteFile(filename: string)
      modifies this
      ensures files == old(files) - {LoadFile(filename)}
      ensures LoadFile(filename) !in files
    {
      files := files - {Resolve(uploadPath, filename)};
    }
  }
}

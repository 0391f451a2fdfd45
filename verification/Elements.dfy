// models/models.go: the files of a release and their names. The host's MIME table is a parameter.
module Elements {
  const APPLICATION_ZIP: string := "application/zip"
  const APPLICATION_JSON: string := "application/json"
  const TEXT_X_SWIFT: string := "text/x-swift"

  /** mime.ExtensionsByType: the extensions known for a type, or an error for a malformed type. */
  datatype MimeLookup = Extensions(extensions: seq<string>) | MalformedType

  type MimeTable = string -> MimeLookup

  datatype UploadElementType =
    SourceArchive | SourceArchiveSignature | Metadata | MetadataSignature | Manifest | PackageManifestJson

  datatype UploadElement = UploadElement(
    scope: string, name: string, version: string, mimeType: string,
    filenameOverwrite: string, extOverwrite: string)

  function NewUploadElement(scope: string, name: string, version: string, mimeType: string,
                            uploadType: UploadElementType): UploadElement
  {
    var element := UploadElement(scope, name, version, mimeType, "", "");
    match uploadType
    case SourceArchive => element
    case SourceArchiveSignature => element.(extOverwrite := ".sig")
    case Metadata => element.(filenameOverwrite := "metadata")
    case MetadataSignature => element.(filenameOverwrite := "metadata", extOverwrite := ".sig")
    case Manifest => element.(filenameOverwrite := "Package", extOverwrite := ".swift")
    case PackageManifestJson => element.(filenameOverwrite := "Package", extOverwrite := ".json")
  }

  /** FilenameWithoutExtension. */
  function BaseName(e: UploadElement): string {
    if e.filenameOverwrite != "" then e.filenameOverwrite
    else e.scope + "." + e.name + "-" + e.version
  }

  /** A malformed MIME type loses even an overwritten extension. */
  function FileName(e: UploadElement, mime: MimeTable): string {
    var lookup := mime(e.mimeType);
    var extensions := if lookup.MalformedType? then [] else lookup.extensions;
    var extensions :=
      if e.extOverwrite == "" then extensions
      else if extensions == [] then [e.extOverwrite]
      else extensions[0 := e.extOverwrite];
    if lookup.MalformedType? || extensions == [] then BaseName(e) else BaseName(e) + extensions[0]
  }

  /** Extension: without the leading dot, and "zip" when the type has none. */
  function Extension(e: UploadElement, mime: MimeTable): string {
    var lookup := mime(e.mimeType);
    if e.extOverwrite != "" then Undotted(e.extOverwrite)
    else if lookup.MalformedType? || lookup.extensions == [] || lookup.extensions[0] == "" then "zip"
    else Undotted(lookup.extensions[0])
  }

  function Undotted(ext: string): string {
    if ext != "" && ext[0] == '.' then ext[1..] else ext
  }

  /** The file names of a release, for a type that the host finds well formed. */
  lemma {:induction false} FileNames(scope: string, name: string, version: string, mimeType: string, mime: MimeTable)
    requires mime(mimeType).Extensions?
    ensures var known := mime(mimeType).extensions;
            var ext := if known == [] then "" else known[0];
            var release := scope + "." + name + "-" + version;
            && FileName(NewUploadElement(scope, name, version, mimeType, SourceArchive), mime) == release + ext
            && FileName(NewUploadElement(scope, name, version, mimeType, SourceArchiveSignature), mime) == release + ".sig"
            && FileName(NewUploadElement(scope, name, version, mimeType, Metadata), mime) == "metadata" + ext
            && FileName(NewUploadElement(scope, name, version, mimeType, MetadataSignature), mime) == "metadata.sig"
            && FileName(NewUploadElement(scope, name, version, mimeType, Manifest), mime) == "Package.swift"
            && FileName(NewUploadElement(scope, name, version, mimeType, PackageManifestJson), mime) == "Package.json"
  {
    var release := scope + "." + name + "-" + version;
    assert release + "" == release;
  }

  /** A signature is stored beside what it signs, unless the host calls that .sig too. */
  lemma {:induction false} SignatureApart(scope: string, name: string, version: string, mimeType: string, other: string, mime: MimeTable)
    requires mime(mimeType).Extensions? && mime(other).Extensions?
    ensures var known := mime(mimeType).extensions;
            var signed := NewUploadElement(scope, name, version, mimeType, SourceArchive);
            var signature := NewUploadElement(scope, name, version, other, SourceArchiveSignature);
            FileName(signed, mime) == FileName(signature, mime) <==> known != [] && known[0] == ".sig"
    ensures var known := mime(mimeType).extensions;
            var signed := NewUploadElement(scope, name, version, mimeType, Metadata);
            var signature := NewUploadElement(scope, name, version, other, MetadataSignature);
            FileName(signed, mime) == FileName(signature, mime) <==> known != [] && known[0] == ".sig"
  {
    FileNames(scope, name, version, mimeType, mime);
    FileNames(scope, name, version, other, mime);
    var ext := if mime(mimeType).extensions == [] then "" else mime(mimeType).extensions[0];
    SameFront(scope + "." + name + "-" + version, ext, ".sig");
    SameFront("metadata", ext, ".sig");
    assert "metadata" + ".sig" == "metadata.sig";
  }

  lemma {:induction false} SameFront(a: string, x: string, y: string)
    ensures a + x == a + y <==> x == y
  {
    assert (a + x)[|a|..] == x && (a + y)[|a|..] == y;
  }

  /** A malformed type loses every extension, even a fixed one. */
  lemma {:induction false} MalformedLosesExtension(e: UploadElement, mime: MimeTable)
    requires mime(e.mimeType).MalformedType?
    ensures FileName(e, mime) == if e.filenameOverwrite != "" then e.filenameOverwrite else e.scope + "." + e.name + "-" + e.version
  {
  }
}

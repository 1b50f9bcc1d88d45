/**
 * The pure part of the PDF store (`GoogleDriveService`): its PDF validator, the name a PDF is
 * stored under, the catalog PDF name, and the choice between a real and a simulated upload.
 * The clock, the UUID generator and the Drive client are parameters: `DriveCall` holds what
 * they gave one upload.
 */
module GoogleDrive {
  import opened Common
  import opened MultipartFiles

  /** The `google.drive.enabled` flag, whether a Drive client was injected, and the default folder. */
  datatype Config = Config(enabledFlag: bool, clientPresent: bool, defaultFolderId: Option<string>)
  {
    /** `isGoogleDriveEnabled`. */
    predicate IsGoogleDriveEnabled()
    {
      enabledFlag && clientPresent
    }
  }

  /**
   * The clock formatted as `yyyyMMdd` and as `yyyyMMdd_HHmmss`, the random UUID, the current
   * time in milliseconds, and the view link Drive returned (`None` when Drive threw).
   */
  datatype DriveCall = DriveCall(dateStamp: string, timestamp: string, uuid: UuidText, millis: nat, webViewLink: Option<string>)

  /** The metadata of the file `uploadPdf` creates on Drive. */
  datatype DriveFile = DriveFile(name: string, description: string, parents: seq<string>)

  /** What `uploadPdf` did: a simulated upload's URL, or the file created and its view link. */
  datatype PdfUpload = Simulated(url: string) | Uploaded(metadata: DriveFile, webViewLink: string)

  /**
   * `validatePdfFile`: empty, then the name, then the content type, then the size. A missing
   * name or content type is dereferenced, so it throws a `NullPointerException`; every other
   * refusal is an `IllegalArgumentException`.
   */
  function ValidatePdfFile(file: Option<MultipartFile>): (r: Outcome<Rejection>)
    ensures r.Pass? <==> AcceptablePdf(file)
    ensures !Present(file) ==> r == Fail(Rejection(IllegalArgument, EmptyFile))
    ensures Present(file) && file.value.originalFilename.None? ==> r == Fail(Rejection(NullPointer, NoPdfExtension))
    ensures r.Fail? && r.error.exception == NullPointer
            ==> Present(file) && (file.value.originalFilename.None? || file.value.contentType.None?)
  {
    if file.None? || file.value.IsEmpty() then Fail(Rejection(IllegalArgument, EmptyFile))
    else if file.value.originalFilename.None? then Fail(Rejection(NullPointer, NoPdfExtension))
    else if !HasPdfExtension(file.value.originalFilename.value) then Fail(Rejection(IllegalArgument, NoPdfExtension))
    else if file.value.contentType.None? then Fail(Rejection(NullPointer, NotAPdf))
    else if file.value.contentType.value != PDF_CONTENT_TYPE then Fail(Rejection(IllegalArgument, NotAPdf))
    else if file.value.size > MAX_PDF_SIZE then Fail(Rejection(IllegalArgument, TooLarge))
    else if file.value.size < MIN_FILE_SIZE then Fail(Rejection(IllegalArgument, TooSmall))
    else Pass
  }

  /** The characters `generateFileName` keeps: `[a-zA-Z0-9._-]`. */
  predicate SafeFileNameChar(c: char)
  {
    IsAsciiAlphanumeric(c) || c in "._-"
  }

  predicate AllSafe(s: string)
  {
    forall k :: 0 <= k < |s| ==> SafeFileNameChar(s[k])
  }

  /** A name made only of safe characters is not changed by the sanitisation. */
  lemma SafeNameUnchanged(s: string)
    requires AllSafe(s)
    ensures ReplaceUnsafeFileNameChars(s) == s
  {
  }

  /**
   * `generateFileName`: the timestamp, the first 8 characters of a UUID, and the original name
   * with every character outside `[a-zA-Z0-9._-]` replaced by '_', joined by '_'.
   */
  function GenerateFileName(originalName: string, timestamp: string, uuid: UuidText): (r: string)
    ensures |r| == |timestamp| + 10 + |originalName|
    ensures StartsWith(r, timestamp + "_" + uuid[..8] + "_")
    ensures AllSafe(r[|timestamp| + 10..])
    ensures forall k :: 0 <= k < |originalName| && SafeFileNameChar(originalName[k]) ==> r[|timestamp| + 10 + k] == originalName[k]
    ensures r[|timestamp| + 10..] == ReplaceUnsafeFileNameChars(originalName)
  {
    timestamp + "_" + uuid[..8] + "_" + ReplaceUnsafeFileNameChars(originalName)
  }

  /** A PDF name keeps its `.pdf` ending, in its own case, through `generateFileName`. */
  lemma GeneratedNameKeepsPdfExtension(originalName: string, timestamp: string, uuid: UuidText)
    requires HasPdfExtension(originalName)
    ensures HasPdfExtension(GenerateFileName(originalName, timestamp, uuid))
    ensures EndsWith(GenerateFileName(originalName, timestamp, uuid), originalName[|originalName| - 4..])
  {
    var n := |originalName|;
    var tail := originalName[n - 4..];
    assert ToLower(tail) == ToLower(originalName)[n - 4..];
    var safe := ReplaceUnsafeFileNameChars(originalName);
    forall k | 0 <= k < 4
      ensures safe[n - 4 + k] == tail[k]
    {
      assert LowerChar(tail[k]) == ".pdf"[k];
    }
    assert safe[n - 4..] == tail;
    var r := GenerateFileName(originalName, timestamp, uuid);
    assert r[|r| - 4..] == safe[n - 4..];
    ToLowerSuffix(r, tail);
  }

  /** `simulateUpload`: a placeholder view URL made of a UUID prefix and the current time. */
  function SimulatedUrl(uuid: UuidText, millis: nat): (r: string)
    ensures StartsWith(r, "https://drive.google.com/file/d/simulated_") && EndsWith(r, "/view")
    ensures |r| == 56 + |DecimalString(millis)|
    ensures r[42..|r| - 5] == uuid[..8] + "_" + DecimalString(millis)
  {
    "https://drive.google.com/file/d/simulated_" + uuid[..8] + "_" + DecimalString(millis) + "/view"
  }

  /** The folder a new file goes into: the default folder when one is configured and not empty. */
  function Parents(defaultFolderId: Option<string>): (r: seq<string>)
    ensures |r| <= 1
    ensures r == [] <==> defaultFolderId.None? || defaultFolderId.value == []
    ensures r != [] ==> defaultFolderId.Some? && r == [defaultFolderId.value]
  {
    if defaultFolderId.Some? && defaultFolderId.value != [] then [defaultFolderId.value] else []
  }

  /**
   * `uploadPdf`: with Drive disabled the upload is simulated and the file is not validated;
   * otherwise the file is validated (its exceptions escape as they are) and created under its
   * generated name. A Drive failure is rethrown as a `RuntimeException`; failing to make the
   * file public is only logged.
   */
  function UploadPdf(config: Config, file: Option<MultipartFile>, fileName: string, description: string, call: DriveCall)
    : (r: Result<PdfUpload, Rejection>)
    ensures r.Success? && r.value.Simulated? <==> !config.IsGoogleDriveEnabled()
    ensures config.IsGoogleDriveEnabled() ==> (r.Success? <==> AcceptablePdf(file) && call.webViewLink.Some?)
    ensures config.IsGoogleDriveEnabled() && !AcceptablePdf(file) ==> r.Failure? && r.error.exception != Runtime
    ensures r.Success? && r.value.Uploaded? ==>
              && r.value.metadata == DriveFile(GenerateFileName(fileName, call.timestamp, call.uuid), description, Parents(config.defaultFolderId))
              && Some(r.value.webViewLink) == call.webViewLink
  {
    if !config.IsGoogleDriveEnabled() then Success(Simulated(SimulatedUrl(call.uuid, call.millis)))
    else
      match ValidatePdfFile(file)
      case Fail(e) => Failure(e)
      case Pass =>
        if call.webViewLink.None? then Failure(Rejection(Runtime, StorageFailed))
        else
          var metadata := DriveFile(GenerateFileName(fileName, call.timestamp, call.uuid), description, Parents(config.defaultFolderId));
          Success(Uploaded(metadata, call.webViewLink.value))
  }

  /** The catalog PDF name: `Catalogo_<supplier>_<catalog>_<yyyyMMdd>.pdf`, each name with non-alphanumerics as '_'. */
  function CatalogPdfName(supplierName: string, catalogName: string, dateStamp: string): (r: string)
    ensures |r| == |supplierName| + |catalogName| + |dateStamp| + 15
    ensures StartsWith(r, "Catalogo_") && HasPdfExtension(r)
    ensures r[9..9 + |supplierName|] == ReplaceNonAlphanumeric(supplierName)
    ensures r[10 + |supplierName|..10 + |supplierName| + |catalogName|] == ReplaceNonAlphanumeric(catalogName)
    ensures r[11 + |supplierName| + |catalogName|..|r| - 4] == dateStamp
    ensures r[|r| - 4..] == ".pdf"
  {
    var head := "Catalogo_" + ReplaceNonAlphanumeric(supplierName) + "_";
    var middle := head + ReplaceNonAlphanumeric(catalogName) + "_";
    var r := middle + dateStamp + ".pdf";
    assert r[|r| - 4..] == ".pdf";
    assert ToLower(r)[|r| - 4..] == ".pdf";
    assert r[..9] == "Catalogo_" && r[9..9 + |supplierName|] == head[9..9 + |supplierName|];
    assert r[10 + |supplierName|..10 + |supplierName| + |catalogName|] == middle[|head|..|head| + |catalogName|];
    r
  }

  /** The supplier and catalog parts of a catalog PDF name are each followed by '_'. */
  lemma CatalogPdfNameSeparators(supplierName: string, catalogName: string, dateStamp: string)
    ensures var r := CatalogPdfName(supplierName, catalogName, dateStamp);
            r[9 + |supplierName|] == '_' && r[10 + |supplierName| + |catalogName|] == '_'
  {
    var head := "Catalogo_" + ReplaceNonAlphanumeric(supplierName) + "_";
    var middle := head + ReplaceNonAlphanumeric(catalogName) + "_";
    assert CatalogPdfName(supplierName, catalogName, dateStamp) == middle + dateStamp + ".pdf";
    assert middle[9 + |supplierName|] == head[|head| - 1];
  }

  lemma AllSafeConcat(a: string, b: string)
    requires AllSafe(a) && AllSafe(b)
    ensures AllSafe(a + b)
  {
    assert forall k :: |a| <= k < |a + b| ==> (a + b)[k] == b[k - |a|];
  }

  lemma AllSafeAlphanumeric(s: string)
    ensures AllSafe(ReplaceNonAlphanumeric(s))
  {
  }

  /** With a date stamp of safe characters, a catalog PDF name passes through `generateFileName` unchanged. */
  lemma CatalogPdfNameIsSafe(supplierName: string, catalogName: string, dateStamp: string)
    requires AllSafe(dateStamp)
    ensures ReplaceUnsafeFileNameChars(CatalogPdfName(supplierName, catalogName, dateStamp)) == CatalogPdfName(supplierName, catalogName, dateStamp)
  {
    var s, c := ReplaceNonAlphanumeric(supplierName), ReplaceNonAlphanumeric(catalogName);
    var prefix, sep, ext := "Catalogo_", "_", ".pdf";
    assert AllSafe(prefix) && AllSafe(sep) && AllSafe(ext);
    AllSafeAlphanumeric(supplierName);
    AllSafeAlphanumeric(catalogName);
    AllSafeConcat(prefix, s);
    AllSafeConcat(prefix + s, sep);
    AllSafeConcat(prefix + s + sep, c);
    AllSafeConcat(prefix + s + sep + c, sep);
    AllSafeConcat(prefix + s + sep + c + sep, dateStamp);
    AllSafeConcat(prefix + s + sep + c + sep + dateStamp, ext);
    SafeNameUnchanged(CatalogPdfName(supplierName, catalogName, dateStamp));
  }

  function CatalogPdfDescription(supplierName: string, catalogName: string): string
  {
    "Catálogo de produtos - " + supplierName + " - " + catalogName
  }

  /**
   * `uploadCatalogPdf`: the PDF is uploaded under the catalog PDF name for the current date;
   * on Drive its name is the timestamp, the UUID prefix and that catalog name.
   */
  function UploadCatalogPdf(config: Config, file: Option<MultipartFile>, supplierName: string, catalogName: string, call: DriveCall)
    : (r: Result<PdfUpload, Rejection>)
    ensures r == UploadPdf(config, file, CatalogPdfName(supplierName, catalogName, call.dateStamp),
                           CatalogPdfDescription(supplierName, catalogName), call)
    ensures AllSafe(call.dateStamp) && r.Success? && r.value.Uploaded? ==>
              r.value.metadata.name == call.timestamp + "_" + call.uuid[..8] + "_" + CatalogPdfName(supplierName, catalogName, call.dateStamp)
              && HasPdfExtension(r.value.metadata.name)
  {
    var name := CatalogPdfName(supplierName, catalogName, call.dateStamp);
    assert AllSafe(call.dateStamp) ==>
             GenerateFileName(name, call.timestamp, call.uuid) == call.timestamp + "_" + call.uuid[..8] + "_" + name
             && HasPdfExtension(GenerateFileName(name, call.timestamp, call.uuid)) by {
      if AllSafe(call.dateStamp) {
        CatalogPdfNameIsSafe(supplierName, catalogName, call.dateStamp);
        GeneratedNameKeepsPdfExtension(name, call.timestamp, call.uuid);
      }
    }
    UploadPdf(config, file, name, CatalogPdfDescription(supplierName, catalogName), call)
  }
}

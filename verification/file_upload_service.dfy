/**
 * The upload front end (`FileUploadService`): its own image and PDF validators, the S3
 * category an image goes to, the bulk catalog-image upload, and the admin document name. The
 * S3 and Drive stores are the `AwsS3` and `GoogleDrive` models; what the clock, the UUID
 * generator and the stores gave each call is a parameter.
 */
module FileUploads {
  import opened Common
  import opened MultipartFiles
  import AwsS3
  import GoogleDrive

  // ---------------------------------------------------------------------------------------------
  // Validators

  /** The accepted image extensions, compared on the lower-case name. */
  predicate HasImageExtension(name: string)
  {
    var lower := ToLower(name);
    EndsWith(lower, ".jpg") || EndsWith(lower, ".jpeg") || EndsWith(lower, ".png") || EndsWith(lower, ".webp")
  }

  /**
   * An image this service accepts: present, of an `image/...` content type, named with an
   * accepted extension, and from 1 KB to 10 MB.
   */
  predicate AcceptableImage(file: Option<MultipartFile>)
  {
    && Present(file)
    && file.value.contentType.Some? && StartsWith(file.value.contentType.value, IMAGE_CONTENT_TYPE_PREFIX)
    && file.value.originalFilename.Some? && HasImageExtension(file.value.originalFilename.value)
    && MIN_FILE_SIZE <= file.value.size <= MAX_IMAGE_SIZE
  }

  /**
   * `validateImageFile`: empty, content type, extension, too large, too small, in that order;
   * every refusal is an `IllegalArgumentException`.
   */
  function ValidateImageFile(file: Option<MultipartFile>): (r: Outcome<Rejection>)
    ensures r.Pass? <==> AcceptableImage(file)
    ensures r.Fail? ==> r.error.exception == IllegalArgument
    ensures !Present(file) ==> r == Fail(Rejection(IllegalArgument, EmptyFile))
    ensures r.Fail? && r.error.reason == TooSmall ==> AwsS3.AcceptableByS3(file) && file.value.size < MIN_FILE_SIZE
  {
    if file.None? || file.value.IsEmpty() then Fail(Rejection(IllegalArgument, EmptyFile))
    else if file.value.contentType.None? || !StartsWith(file.value.contentType.value, IMAGE_CONTENT_TYPE_PREFIX) then
      Fail(Rejection(IllegalArgument, NotAnImage))
    else if file.value.originalFilename.None? || !HasImageExtension(file.value.originalFilename.value) then
      Fail(Rejection(IllegalArgument, UnsupportedFormat))
    else if file.value.size > MAX_IMAGE_SIZE then Fail(Rejection(IllegalArgument, TooLarge))
    else if file.value.size < MIN_FILE_SIZE then Fail(Rejection(IllegalArgument, TooSmall))
    else Pass
  }

  /**
   * Every image this service accepts is accepted by the S3 store as well, but not the other
   * way round: S3 has no minimum size and no extension check.
   */
  lemma ImageCheckIsStricterThanS3(file: Option<MultipartFile>)
    ensures AcceptableImage(file) ==> AwsS3.AcceptableByS3(file)
    ensures exists small :: AwsS3.AcceptableByS3(small) && !AcceptableImage(small)
  {
    var small := Some(MultipartFile(Some("image/gif"), Some("a.gif"), 512));
    assert StartsWith("image/gif", IMAGE_CONTENT_TYPE_PREFIX);
    assert AwsS3.AcceptableByS3(small) && !AcceptableImage(small);
  }

  /**
   * `validatePdfFile`: empty, content type, name, too large, too small. A missing content
   * type is dereferenced and throws a `NullPointerException`; every other refusal is an
   * `IllegalArgumentException`.
   */
  function ValidatePdfFile(file: Option<MultipartFile>): (r: Outcome<Rejection>)
    ensures r.Pass? <==> AcceptablePdf(file)
    ensures r.Fail? && r.error.exception == NullPointer <==> Present(file) && file.value.contentType.None?
    ensures r.Fail? ==> r.error.exception == IllegalArgument || r.error.exception == NullPointer
    ensures !Present(file) ==> r == Fail(Rejection(IllegalArgument, EmptyFile))
  {
    if file.None? || file.value.IsEmpty() then Fail(Rejection(IllegalArgument, EmptyFile))
    else if file.value.contentType.None? then Fail(Rejection(NullPointer, NotAPdf))
    else if file.value.contentType.value != PDF_CONTENT_TYPE then Fail(Rejection(IllegalArgument, NotAPdf))
    else if file.value.originalFilename.None? || !HasPdfExtension(file.value.originalFilename.value) then
      Fail(Rejection(IllegalArgument, NoPdfExtension))
    else if file.value.size > MAX_PDF_SIZE then Fail(Rejection(IllegalArgument, TooLarge))
    else if file.value.size < MIN_FILE_SIZE then Fail(Rejection(IllegalArgument, TooSmall))
    else Pass
  }

  /**
   * This service's PDF check and the Drive service's accept exactly the same files; they check
   * in a different order, so a file wrong in two ways is refused for different reasons.
   */
  lemma PdfChecksAgree(file: Option<MultipartFile>)
    ensures ValidatePdfFile(file).Pass? <==> GoogleDrive.ValidatePdfFile(file).Pass?
    ensures var text := Some(MultipartFile(Some("text/plain"), Some("a.txt"), 2048));
            ValidatePdfFile(text).error.reason == NotAPdf && GoogleDrive.ValidatePdfFile(text).error.reason == NoPdfExtension
  {
    var text := Some(MultipartFile(Some("text/plain"), Some("a.txt"), 2048));
    assert ToLower("a.txt")[1..] == ".txt";
  }

  // ---------------------------------------------------------------------------------------------
  // Image categories

  const CATALOG_PRODUCTS_FOLDER: string := "catalog-products/"
  const CUSTOM_ORDERS_FOLDER: string := "custom-orders/user-"
  const USER_PROFILES_CATEGORY: string := "user-profiles"

  /** The character a supplier name contributes to its category: '_' for a non-alphanumeric, lower case otherwise. */
  function CategoryChar(c: char): char
  {
    LowerChar(if IsAsciiAlphanumeric(c) then c else '_')
  }

  /**
   * The category of a catalog product image: `catalog-products/` and the supplier name with
   * every non-alphanumeric character replaced by '_', in lower case.
   */
  function CatalogProductCategory(supplierName: string): (r: string)
    ensures |r| == |CATALOG_PRODUCTS_FOLDER| + |supplierName| && StartsWith(r, CATALOG_PRODUCTS_FOLDER)
    ensures forall k :: 0 <= k < |supplierName| ==> r[|CATALOG_PRODUCTS_FOLDER| + k] == CategoryChar(supplierName[k])
    ensures forall k :: |CATALOG_PRODUCTS_FOLDER| <= k < |r| ==> ('a' <= r[k] <= 'z') || ('0' <= r[k] <= '9') || r[k] == '_'
  {
    CATALOG_PRODUCTS_FOLDER + ToLower(ReplaceNonAlphanumeric(supplierName))
  }

  /**
   * Two suppliers' catalog images share a category exactly when their names have the same
   * length and agree character by character once case and non-alphanumerics are ignored.
   */
  lemma {:induction false} SharedCatalogCategory(a: string, b: string)
    ensures CatalogProductCategory(a) == CatalogProductCategory(b)
        <==> |a| == |b| && forall k :: 0 <= k < |a| ==> CategoryChar(a[k]) == CategoryChar(b[k])
  {
    var ca, cb := CatalogProductCategory(a), CatalogProductCategory(b);
    var n := |CATALOG_PRODUCTS_FOLDER|;
    if ca == cb {
      forall k | 0 <= k < |a|
        ensures CategoryChar(a[k]) == CategoryChar(b[k])
      {
        assert ca[n + k] == cb[n + k];
      }
    }
    if |a| == |b| && forall k :: 0 <= k < |a| ==> CategoryChar(a[k]) == CategoryChar(b[k]) {
      assert ca[..n] == cb[..n];
      forall k | n <= k < |ca|
        ensures ca[k] == cb[k]
      {
        assert CategoryChar(a[k - n]) == CategoryChar(b[k - n]);
      }
    }
  }

  /** The category of a custom-order image: `custom-orders/user-` and the user id, `null` when there is none. */
  function CustomOrderCategory(userId: Option<int>): (r: string)
    ensures StartsWith(r, CUSTOM_ORDERS_FOLDER)
  {
    CUSTOM_ORDERS_FOLDER + (if userId.None? then "null" else DecimalString(userId.value))
  }

  /** Different users' custom-order images never share a category. */
  lemma CustomOrderCategoryInjective(a: Option<int>, b: Option<int>)
    requires CustomOrderCategory(a) == CustomOrderCategory(b)
    ensures a == b
  {
    var n := |CUSTOM_ORDERS_FOLDER|;
    var ta := if a.None? then "null" else DecimalString(a.value);
    var tb := if b.None? then "null" else DecimalString(b.value);
    assert ta == CustomOrderCategory(a)[n..] && tb == CustomOrderCategory(b)[n..];
    if a.Some? && b.Some? {
      DecimalStringInjective(a.value, b.value);
    } else if a.Some? {
      DecimalStringHead(a.value);
    } else if b.Some? {
      DecimalStringHead(b.value);
    }
  }

  /** A decimal string starts with a minus sign exactly for a negative number, and with a digit otherwise. */
  lemma DecimalStringHead(n: int)
    ensures DecimalString(n)[0] == '-' <==> n < 0
    ensures n >= 0 ==> '0' <= DecimalString(n)[0] <= '9'
  {
  }

  /** A decimal string has one character exactly for the numbers 0 to 9. */
  lemma DecimalStringLength(n: int)
    requires n >= 0
    ensures |DecimalString(n)| == 1 <==> n < 10
  {
    if n >= 10 {
      assert DecimalString(n) == DecimalString(n / 10) + [('0' as int + n % 10) as char];
    }
  }

  /** Different numbers have different decimal strings. */
  lemma {:induction false} DecimalStringInjective(a: int, b: int)
    requires DecimalString(a) == DecimalString(b)
    ensures a == b
    decreases if a < 0 then -a + 1 else a
  {
    DecimalStringHead(a);
    DecimalStringHead(b);
    if a < 0 {
      assert DecimalString(a)[1..] == DecimalString(-a) && DecimalString(b)[1..] == DecimalString(-b);
      DecimalStringInjective(-a, -b);
    } else {
      DecimalStringLength(a);
      DecimalStringLength(b);
      if a >= 10 {
        var s := DecimalString(a);
        assert s == DecimalString(a / 10) + [('0' as int + a % 10) as char];
        assert s == DecimalString(b / 10) + [('0' as int + b % 10) as char];
        assert s[..|s| - 1] == DecimalString(a / 10) && s[..|s| - 1] == DecimalString(b / 10);
        DecimalStringInjective(a / 10, b / 10);
      }
    }
  }

  // ---------------------------------------------------------------------------------------------
  // Image uploads

  /**
   * `uploadCatalogProductImage`, `uploadCustomOrderImage` and `uploadUserProfileImage`: this
   * service's check, then the S3 upload into the category. A file this service refuses never
   * reaches S3, so its refusal is an `IllegalArgumentException`, not S3's `RuntimeException`.
   */
  function UploadImageTo(bucket: AwsS3.Bucket, file: Option<MultipartFile>, category: string, call: AwsS3.S3Call)
    : (r: Result<string, Rejection>)
    ensures r.Success? <==> AcceptableImage(file) && call.putSucceeds
    ensures !AcceptableImage(file) ==> r.Failure? && r.error.exception == IllegalArgument
    ensures r.Success? ==> r.value == UploadedUrl(bucket, file.value, category, call)
  {
    match ValidateImageFile(file)
    case Fail(e) => Failure(e)
    case Pass =>
      ImageCheckIsStricterThanS3(file);
      AwsS3.UploadImage(bucket, file, category, call)
  }

  /** The URL S3 gives an image stored in the category. */
  function UploadedUrl(bucket: AwsS3.Bucket, file: MultipartFile, category: string, call: AwsS3.S3Call): string
  {
    AwsS3.BuildImageUrl(bucket, AwsS3.BuildImageKey(category,
      AwsS3.GenerateUniqueFileName(file.originalFilename, call.timestamp, call.uuid)))
  }

  function UploadCatalogProductImage(bucket: AwsS3.Bucket, file: Option<MultipartFile>, supplierName: string, call: AwsS3.S3Call)
    : Result<string, Rejection>
  {
    UploadImageTo(bucket, file, CatalogProductCategory(supplierName), call)
  }

  function UploadCustomOrderImage(bucket: AwsS3.Bucket, file: Option<MultipartFile>, userId: Option<int>, call: AwsS3.S3Call)
    : Result<string, Rejection>
  {
    UploadImageTo(bucket, file, CustomOrderCategory(userId), call)
  }

  function UploadUserProfileImage(bucket: AwsS3.Bucket, file: Option<MultipartFile>, call: AwsS3.S3Call)
    : Result<string, Rejection>
  {
    UploadImageTo(bucket, file, USER_PROFILES_CATEGORY, call)
  }

  /** The extension S3 keeps of a name that ends in `ext` (in any case) is `ext` up to case. */
  lemma ExtensionOfSuffix(name: string, ext: string)
    requires |ext| >= 1 && ext[0] == '.' && '.' !in ext[1..] && EndsWith(ToLower(name), ext)
    ensures ToLower(AwsS3.Extension(Some(name))) == ext
  {
    var j := |name| - |ext|;
    var lower := ToLower(name);
    assert lower[j] == ext[0];
    assert name[j] == '.';
    var i := AwsS3.LastIndexOf(name, '.');
    forall k | j < k < |name|
      ensures name[k] != '.'
    {
      assert lower[k] == ext[k - j] == ext[1..][k - j - 1];
    }
    assert i == j;
    assert ToLower(name[j..]) == lower[j..];
  }

  /** A string that ends with a string with an accepted image extension has one too. */
  lemma ImageExtensionOfSuffix(s: string, t: string)
    requires EndsWith(s, t) && HasImageExtension(t)
    ensures HasImageExtension(s)
  {
    ToLowerSuffix(s, t);
    var lower := ToLower(t);
    if EndsWith(lower, ".jpg") {
      EndsWithTransitive(ToLower(s), lower, ".jpg");
    } else if EndsWith(lower, ".jpeg") {
      EndsWithTransitive(ToLower(s), lower, ".jpeg");
    } else if EndsWith(lower, ".png") {
      EndsWithTransitive(ToLower(s), lower, ".png");
    } else {
      EndsWithTransitive(ToLower(s), lower, ".webp");
    }
  }

  /** The extension S3 keeps of a name with an accepted image extension is that extension. */
  lemma ImageExtensionKept(name: string)
    requires HasImageExtension(name)
    ensures HasImageExtension(AwsS3.Extension(Some(name)))
  {
    var lower := ToLower(name);
    if EndsWith(lower, ".jpg") {
      ExtensionOfSuffix(name, ".jpg");
    } else if EndsWith(lower, ".jpeg") {
      ExtensionOfSuffix(name, ".jpeg");
    } else if EndsWith(lower, ".png") {
      ExtensionOfSuffix(name, ".png");
    } else {
      ExtensionOfSuffix(name, ".webp");
    }
  }

  /** The URL of an uploaded image ends in one of the accepted extensions, ignoring case. */
  lemma UploadedUrlHasImageExtension(bucket: AwsS3.Bucket, file: MultipartFile, category: string, call: AwsS3.S3Call)
    requires AcceptableImage(Some(file))
    ensures HasImageExtension(UploadedUrl(bucket, file, category, call))
  {
    var ext := AwsS3.Extension(file.originalFilename);
    var fileName := AwsS3.GenerateUniqueFileName(file.originalFilename, call.timestamp, call.uuid);
    var url := UploadedUrl(bucket, file, category, call);
    ImageExtensionKept(file.originalFilename.value);
    assert url == AwsS3.BaseUrl(bucket) + AwsS3.BuildImageKey(category, fileName);
    assert EndsWith(url, fileName) by {
      assert url[|url| - |fileName|..] == fileName;
    }
    EndsWithTransitive(url, fileName, ext);
    ImageExtensionOfSuffix(url, ext);
  }

  // ---------------------------------------------------------------------------------------------
  // Bulk catalog upload

  /** Urls already gathered, followed by the outcome of the rest of the files. */
  function Prepend(urls: seq<string>, rest: Result<seq<string>, Rejection>): Result<seq<string>, Rejection>
  {
    match rest
    case Failure(e) => Failure(e)
    case Success(more) => Success(urls + more)
  }

  lemma PrependNothing(rest: Result<seq<string>, Rejection>)
    ensures Prepend([], rest) == rest
  {
    if rest.Success? {
      assert [] + rest.value == rest.value;
    }
  }

  lemma PrependTwice(urls: seq<string>, more: seq<string>, rest: Result<seq<string>, Rejection>)
    ensures Prepend(urls, Prepend(more, rest)) == Prepend(urls + more, rest)
  {
    if rest.Success? {
      assert urls + (more + rest.value) == urls + more + rest.value;
    }
  }

  /**
   * What `uploadMultipleCatalogImages` returns: files are uploaded in order, null and empty
   * files are skipped, and the first upload that throws ends the call with its exception.
   * `calls[k]` is what the clock, the UUID generator and S3 gave the k-th file.
   */
  function BulkUpload(bucket: AwsS3.Bucket, files: seq<Option<MultipartFile>>, supplierName: string, calls: seq<AwsS3.S3Call>)
    : Result<seq<string>, Rejection>
    requires |calls| == |files|
    decreases |files|
  {
    if files == [] then Success([])
    else if !Present(files[0]) then BulkUpload(bucket, files[1..], supplierName, calls[1..])
    else
      match UploadCatalogProductImage(bucket, files[0], supplierName, calls[0])
      case Failure(e) => Failure(e)
      case Success(url) => Prepend([url], BulkUpload(bucket, files[1..], supplierName, calls[1..]))
  }

  /** The present files, each with what its own upload call gave, in order. */
  function PresentFiles(files: seq<Option<MultipartFile>>, calls: seq<AwsS3.S3Call>): (r: seq<(MultipartFile, AwsS3.S3Call)>)
    requires |calls| == |files|
    ensures |r| <= |files|
    decreases |files|
  {
    if files == [] then []
    else if Present(files[0]) then [(files[0].value, calls[0])] + PresentFiles(files[1..], calls[1..])
    else PresentFiles(files[1..], calls[1..])
  }

  /** The bulk upload succeeds exactly when every present file passes the image check and is stored. */
  lemma {:induction false} BulkUploadSucceeds(bucket: AwsS3.Bucket, files: seq<Option<MultipartFile>>, supplierName: string, calls: seq<AwsS3.S3Call>)
    requires |calls| == |files|
    ensures BulkUpload(bucket, files, supplierName, calls).Success?
        <==> forall k :: 0 <= k < |files| && Present(files[k]) ==> AcceptableImage(files[k]) && calls[k].putSucceeds
    decreases |files|
  {
    if files != [] {
      BulkUploadSucceeds(bucket, files[1..], supplierName, calls[1..]);
      assert forall k :: 1 <= k < |files| ==> files[k] == files[1..][k - 1] && calls[k] == calls[1..][k - 1];
    }
  }

  /**
   * A successful bulk upload returns one URL per present file, in the files' order: the URL
   * S3 gives that file in the supplier's category.
   */
  lemma {:induction false} BulkUploadUrls(bucket: AwsS3.Bucket, files: seq<Option<MultipartFile>>, supplierName: string, calls: seq<AwsS3.S3Call>)
    requires |calls| == |files|
    ensures var r := BulkUpload(bucket, files, supplierName, calls);
            var present := PresentFiles(files, calls);
            r.Success? ==> |r.value| == |present| <= |files|
                           && forall j :: 0 <= j < |present| ==>
                                r.value[j] == UploadedUrl(bucket, present[j].0, CatalogProductCategory(supplierName), present[j].1)
    decreases |files|
  {
    if files != [] {
      var r := BulkUpload(bucket, files, supplierName, calls);
      var rest := BulkUpload(bucket, files[1..], supplierName, calls[1..]);
      var present, later := PresentFiles(files, calls), PresentFiles(files[1..], calls[1..]);
      var category := CatalogProductCategory(supplierName);
      BulkUploadUrls(bucket, files[1..], supplierName, calls[1..]);
      if !Present(files[0]) {
        assert r == rest && present == later;
      } else if r.Success? {
        var u := UploadCatalogProductImage(bucket, files[0], supplierName, calls[0]);
        assert u.Success? && rest.Success? && r.value == [u.value] + rest.value;
        assert present == [(files[0].value, calls[0])] + later;
        forall j | 0 <= j < |present|
          ensures r.value[j] == UploadedUrl(bucket, present[j].0, category, present[j].1)
        {
          if j > 0 {
            assert r.value[j] == rest.value[j - 1] && present[j] == later[j - 1];
          }
        }
      }
    }
  }

  /** Every URL a successful bulk upload returns ends in an accepted image extension. */
  lemma BulkUploadUrlsAreImages(bucket: AwsS3.Bucket, files: seq<Option<MultipartFile>>, supplierName: string, calls: seq<AwsS3.S3Call>)
    requires |calls| == |files|
    requires BulkUpload(bucket, files, supplierName, calls).Success?
    ensures forall url :: url in BulkUpload(bucket, files, supplierName, calls).value ==> HasImageExtension(url)
  {
    BulkUploadSucceeds(bucket, files, supplierName, calls);
    BulkUploadUrls(bucket, files, supplierName, calls);
    var urls := BulkUpload(bucket, files, supplierName, calls).value;
    var present := PresentFiles(files, calls);
    forall j | 0 <= j < |urls|
      ensures HasImageExtension(urls[j])
    {
      PresentFilesAreAcceptable(files, calls, j);
      UploadedUrlHasImageExtension(bucket, present[j].0, CatalogProductCategory(supplierName), present[j].1);
    }
  }

  /** When every present file passes the check, so does each entry of the present files. */
  lemma {:induction false} PresentFilesAreAcceptable(files: seq<Option<MultipartFile>>, calls: seq<AwsS3.S3Call>, j: int)
    requires |calls| == |files| && 0 <= j < |PresentFiles(files, calls)|
    requires forall k :: 0 <= k < |files| && Present(files[k]) ==> AcceptableImage(files[k])
    ensures AcceptableImage(Some(PresentFiles(files, calls)[j].0))
    decreases |files|
  {
    assert forall k :: 1 <= k < |files| ==> files[k] == files[1..][k - 1];
    if !Present(files[0]) {
      PresentFilesAreAcceptable(files[1..], calls[1..], j);
    } else if j > 0 {
      PresentFilesAreAcceptable(files[1..], calls[1..], j - 1);
    }
  }

  /**
   * `uploadMultipleCatalogImages`: an indexed loop that skips null and empty files and uploads
   * the others in order, appending each URL.
   */
  method UploadMultipleCatalogImages(bucket: AwsS3.Bucket, files: seq<Option<MultipartFile>>, supplierName: string, calls: seq<AwsS3.S3Call>)
    returns (r: Result<seq<string>, Rejection>)
    requires |calls| == |files|
    ensures r == BulkUpload(bucket, files, supplierName, calls)
  {
    var uploadedUrls: seq<string> := [];
    var i := 0;
    assert files[0..] == files && calls[0..] == calls;
    PrependNothing(BulkUpload(bucket, files, supplierName, calls));
    while i < |files|
      invariant 0 <= i <= |files|
      invariant BulkUpload(bucket, files, supplierName, calls) == Prepend(uploadedUrls, BulkUpload(bucket, files[i..], supplierName, calls[i..]))
    {
      var file := files[i];
      var rest := BulkUpload(bucket, files[i + 1..], supplierName, calls[i + 1..]);
      assert files[i..][0] == file && calls[i..][0] == calls[i];
      assert files[i..][1..] == files[i + 1..] && calls[i..][1..] == calls[i + 1..];
      if file.Some? && !file.value.IsEmpty() {
        var url := UploadCatalogProductImage(bucket, file, supplierName, calls[i]);
        if url.Failure? {
          return Failure(url.error);
        }
        assert BulkUpload(bucket, files[i..], supplierName, calls[i..]) == Prepend([url.value], rest);
        PrependTwice(uploadedUrls, [url.value], rest);
        uploadedUrls := uploadedUrls + [url.value];
      } else {
        assert BulkUpload(bucket, files[i..], supplierName, calls[i..]) == rest;
      }
      i := i + 1;
    }
    assert files[i..] == [] && calls[i..] == [];
    assert uploadedUrls + [] == uploadedUrls;
    return Success(uploadedUrls);
  }

  // ---------------------------------------------------------------------------------------------
  // PDF uploads

  /**
   * The admin document name: the document type with non-alphanumerics as '_', then '_', the
   * time in milliseconds in decimal, then `.pdf`.
   */
  function AdminDocumentName(documentType: string, millis: nat): (r: string)
    ensures HasPdfExtension(r) && StartsWith(r, ReplaceNonAlphanumeric(documentType) + "_")
    ensures GoogleDrive.AllSafe(r)
    ensures |r| == |documentType| + |DecimalString(millis)| + 5
    ensures r[|ReplaceNonAlphanumeric(documentType)| + 1..|r| - 4] == DecimalString(millis)
  {
    var digits := DecimalString(millis);
    var r := ReplaceNonAlphanumeric(documentType) + "_" + digits + ".pdf";
    assert ToLower(r)[|r| - 4..] == ".pdf";
    assert forall k :: 0 <= k < |r| ==> r[k] in "_.pdf" || IsAsciiAlphanumeric(r[k]) by {
      forall k | 0 <= k < |r|
        ensures r[k] in "_.pdf" || IsAsciiAlphanumeric(r[k])
      {
        if |documentType| + 1 <= k < |documentType| + 1 + |digits| {
          assert r[k] == digits[k - |documentType| - 1];
        }
      }
    }
    r
  }

  /**
   * `uploadAdminDocument`: this service's PDF check, then the Drive upload under the admin
   * document name. A file this service accepts is never refused by Drive's own check, and
   * Drive stores it under a name that ends with the admin document name unchanged.
   */
  function UploadAdminDocument(config: GoogleDrive.Config, file: Option<MultipartFile>, documentType: string, description: string,
                               call: GoogleDrive.DriveCall): (r: Result<GoogleDrive.PdfUpload, Rejection>)
    ensures !AcceptablePdf(file) ==> r.Failure? && r.error == ValidatePdfFile(file).error
    ensures AcceptablePdf(file) && config.IsGoogleDriveEnabled() ==> (r.Success? <==> call.webViewLink.Some?)
    ensures r.Success? && r.value.Uploaded? ==>
              r.value.metadata.name == call.timestamp + "_" + call.uuid[..8] + "_" + AdminDocumentName(documentType, call.millis)
  {
    match ValidatePdfFile(file)
    case Fail(e) => Failure(e)
    case Pass =>
      var name := AdminDocumentName(documentType, call.millis);
      GoogleDrive.SafeNameUnchanged(name);
      GoogleDrive.UploadPdf(config, file, name, description, call)
  }

  /** `uploadCatalogPdf`: this service's PDF check, then the Drive catalog upload. */
  function UploadCatalogPdf(config: GoogleDrive.Config, file: Option<MultipartFile>, supplierName: string, catalogName: string,
                            call: GoogleDrive.DriveCall): (r: Result<GoogleDrive.PdfUpload, Rejection>)
    ensures !AcceptablePdf(file) ==> r.Failure? && r.error == ValidatePdfFile(file).error
    ensures AcceptablePdf(file) && config.IsGoogleDriveEnabled() ==> (r.Success? <==> call.webViewLink.Some?)
    ensures AcceptablePdf(file) && !config.IsGoogleDriveEnabled() ==> r.Success? && r.value.Simulated?
  {
    match ValidatePdfFile(file)
    case Fail(e) => Failure(e)
    case Pass => GoogleDrive.UploadCatalogPdf(config, file, supplierName, catalogName, call)
  }
}

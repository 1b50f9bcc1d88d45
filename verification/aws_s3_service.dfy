/**
 * The pure part of the S3 image store (`AwsS3Service`): its own image validator, the unique
 * file name, the object keys of an image and of its thumbnail, and the public URL of a key and
 * its inverse. The clock, the UUID generator and the S3 client are parameters: `S3Call` holds
 * what they gave one upload.
 */
module AwsS3 {
  import opened Common
  import opened MultipartFiles

  const IMAGE_FOLDER: string := "images"
  const THUMBNAIL_FOLDER: string := "thumbnails"

  /** The configured bucket name and region. */
  datatype Bucket = Bucket(name: string, region: string)

  /** The formatted clock (`yyyyMMdd_HHmmss`), the random UUID, and whether S3 stored the object. */
  datatype S3Call = S3Call(timestamp: string, uuid: UuidText, putSucceeds: bool)

  /** An image S3 accepts: present, at most 10 MB, of an `image/...` content type. */
  predicate AcceptableByS3(file: Option<MultipartFile>)
  {
    && Present(file)
    && file.value.size <= MAX_IMAGE_SIZE
    && file.value.contentType.Some? && StartsWith(file.value.contentType.value, IMAGE_CONTENT_TYPE_PREFIX)
  }

  /**
   * `validateImageFile`: the checks run in the order empty, too large, content type; each
   * failure is an `IllegalArgumentException`. There is no minimum size and no extension check.
   */
  function ValidateImageFile(file: Option<MultipartFile>): (r: Outcome<Rejection>)
    ensures r.Pass? <==> AcceptableByS3(file)
    ensures r.Fail? ==> r.error.exception == IllegalArgument
    ensures !Present(file) ==> r == Fail(Rejection(IllegalArgument, EmptyFile))
    ensures r == Fail(Rejection(IllegalArgument, NotAnImage)) ==> Present(file) && file.value.size <= MAX_IMAGE_SIZE
  {
    if file.None? || file.value.IsEmpty() then Fail(Rejection(IllegalArgument, EmptyFile))
    else if file.value.size > MAX_IMAGE_SIZE then Fail(Rejection(IllegalArgument, TooLarge))
    else if file.value.contentType.None? || !StartsWith(file.value.contentType.value, IMAGE_CONTENT_TYPE_PREFIX) then
      Fail(Rejection(IllegalArgument, NotAnImage))
    else Pass
  }

  /** `String.lastIndexOf(char)`: the position of the last c in s, or -1. */
  function LastIndexOf(s: string, c: char): (i: int)
    ensures -1 <= i < |s|
    ensures i >= 0 <==> c in s
    ensures i >= 0 ==> s[i] == c
    ensures forall k :: i < k < |s| ==> s[k] != c
  {
    if s == [] then -1
    else if s[|s| - 1] == c then |s| - 1
    else LastIndexOf(s[..|s| - 1], c)
  }

  /**
   * The extension `generateUniqueFileName` keeps: the original name from its last '.' on, dot
   * included; empty when the name is null or has no '.'.
   */
  function Extension(originalFilename: Option<string>): (r: string)
    ensures r == [] <==> originalFilename.None? || '.' !in originalFilename.value
    ensures r != [] ==> r[0] == '.' && '.' !in r[1..] && EndsWith(originalFilename.value, r)
  {
    if originalFilename.Some? && '.' in originalFilename.value then
      var name := originalFilename.value;
      var i := LastIndexOf(name, '.');
      assert forall k :: 0 <= k < |name[i..][1..]| ==> name[i..][1..][k] == name[i + 1 + k];
      name[i..]
    else []
  }

  /** `generateUniqueFileName`: the timestamp, '_', the first 8 characters of the UUID, then the extension. */
  function GenerateUniqueFileName(originalFilename: Option<string>, timestamp: string, uuid: UuidText): (r: string)
    ensures StartsWith(r, timestamp + "_" + uuid[..8])
    ensures |r| == |timestamp| + 9 + |Extension(originalFilename)|
    ensures EndsWith(r, Extension(originalFilename))
  {
    timestamp + "_" + uuid[..8] + Extension(originalFilename)
  }

  /** `buildImageKey`: `images/<category>/<file name>`. */
  function BuildImageKey(category: string, fileName: string): (r: string)
    ensures |r| == |category| + |fileName| + 8
    ensures StartsWith(r, "images/") && EndsWith(r, "/" + fileName)
    ensures r[7..7 + |category|] == category
  {
    IMAGE_FOLDER + "/" + category + "/" + fileName
  }

  /** `buildThumbnailKey`: every occurrence of `images` in the key becomes `thumbnails`. */
  function BuildThumbnailKey(imageKey: string): string
  {
    Replace(imageKey, IMAGE_FOLDER, THUMBNAIL_FOLDER)
  }

  /**
   * Replacing a folder name without '/' in `<folder>/<category>/<file>` replaces the folder
   * and, separately, every occurrence inside the category and inside the file name.
   */
  lemma ReplaceInKey(folder: string, newFolder: string, category: string, fileName: string)
    requires folder != [] && '/' !in folder
    ensures Replace(folder + "/" + category + "/" + fileName, folder, newFolder)
         == newFolder + "/" + Replace(category, folder, newFolder) + "/" + Replace(fileName, folder, newFolder)
  {
    ReplaceLeading(folder, [], folder, newFolder);
    assert folder + [] == folder && folder[|folder|..] + [] == [];
    assert folder + "/" + category + "/" + fileName == folder + ['/'] + (category + ['/'] + fileName);
    ReplaceAcrossSeparator(folder, '/', category + ['/'] + fileName, folder, newFolder);
    ReplaceAcrossSeparator(category, '/', fileName, folder, newFolder);
  }

  /**
   * The thumbnail key of an image key is under `thumbnails/`, and every `images` inside the
   * category or the file name is replaced too.
   */
  lemma ThumbnailKeyReplacesEachPart(category: string, fileName: string)
    ensures BuildThumbnailKey(BuildImageKey(category, fileName))
         == THUMBNAIL_FOLDER + "/" + Replace(category, IMAGE_FOLDER, THUMBNAIL_FOLDER) + "/" + Replace(fileName, IMAGE_FOLDER, THUMBNAIL_FOLDER)
  {
    ReplaceInKey(IMAGE_FOLDER, THUMBNAIL_FOLDER, category, fileName);
  }

  /**
   * The thumbnail of an image key lies under `thumbnails/` with the same category and file
   * name, as long as neither of them contains `images` itself.
   */
  lemma ThumbnailOfImageKey(category: string, fileName: string)
    requires !Contains(category, IMAGE_FOLDER) && !Contains(fileName, IMAGE_FOLDER)
    ensures BuildThumbnailKey(BuildImageKey(category, fileName)) == THUMBNAIL_FOLDER + "/" + category + "/" + fileName
  {
    ThumbnailKeyReplacesEachPart(category, fileName);
    ReplaceAbsent(category, IMAGE_FOLDER, THUMBNAIL_FOLDER);
    ReplaceAbsent(fileName, IMAGE_FOLDER, THUMBNAIL_FOLDER);
  }

  /** The part of every image URL that precedes the key. */
  function BaseUrl(bucket: Bucket): (r: string)
    ensures r != [] && StartsWith(r, "https://") && EndsWith(r, ".amazonaws.com/")
    ensures |r| == |bucket.name| + |bucket.region| + 27
    ensures r[8..8 + |bucket.name|] == bucket.name
    ensures r[8 + |bucket.name|..12 + |bucket.name|] == ".s3."
    ensures r[12 + |bucket.name|..12 + |bucket.name| + |bucket.region|] == bucket.region
  {
    "https://" + bucket.name + ".s3." + bucket.region + ".amazonaws.com/"
  }

  /** `buildImageUrl`. */
  function BuildImageUrl(bucket: Bucket, key: string): (r: string)
    ensures StartsWith(r, BaseUrl(bucket)) && r[|BaseUrl(bucket)|..] == key
  {
    BaseUrl(bucket) + key
  }

  /** `extractKeyFromUrl`: every occurrence of the base URL is removed. */
  function ExtractKeyFromUrl(bucket: Bucket, imageUrl: string): string
  {
    Replace(imageUrl, BaseUrl(bucket), "")
  }

  /** The key comes back from its URL, unless the key itself contains the base URL. */
  lemma UrlRoundTrip(bucket: Bucket, key: string)
    requires !Contains(key, BaseUrl(bucket))
    ensures ExtractKeyFromUrl(bucket, BuildImageUrl(bucket, key)) == key
  {
    var base := BaseUrl(bucket);
    ReplaceLeading(base, key, base, "");
    assert base[|base|..] + key == key;
    ReplaceAbsent(key, base, "");
  }

  /** A key that holds the base URL loses that copy on the way back. */
  lemma UrlRoundTripLosesEmbeddedBase(bucket: Bucket, key: string)
    requires StartsWith(key, BaseUrl(bucket))
    ensures ExtractKeyFromUrl(bucket, BuildImageUrl(bucket, key)) != key
  {
    var base := BaseUrl(bucket);
    ReplaceLeading(base, key, base, "");
    assert base[|base|..] + key == key;
    ReplaceLeading(base, key[|base|..], base, "");
    assert key == base + key[|base|..];
    ReplaceShrinks(key[|base|..], base);
  }

  /** Removing a non-empty target never lengthens a string. */
  lemma {:induction false} ReplaceShrinks(s: string, target: string)
    requires target != []
    ensures |Replace(s, target, "")| <= |s|
    decreases |s|
  {
    if |s| < |target| {
    } else if StartsWith(s, target) {
      ReplaceShrinks(s[|target|..], target);
    } else {
      ReplaceShrinks(s[1..], target);
    }
  }

  /** `getPublicUrl`: the URL rebuilt from the key extracted from it. */
  function GetPublicUrl(bucket: Bucket, imageUrl: string): (r: string)
    ensures StartsWith(r, BaseUrl(bucket))
  {
    BuildImageUrl(bucket, ExtractKeyFromUrl(bucket, imageUrl))
  }

  /** The public URL of an uploaded image's URL is that URL. */
  lemma PublicUrlOfImageUrl(bucket: Bucket, key: string)
    requires !Contains(key, BaseUrl(bucket))
    ensures GetPublicUrl(bucket, BuildImageUrl(bucket, key)) == BuildImageUrl(bucket, key)
  {
    UrlRoundTrip(bucket, key);
  }

  /**
   * `deleteImage` removes the object whose key it extracts from the URL and the thumbnail key
   * of that; for the URL of an upload these are the keys `uploadImage` and `createThumbnail` wrote.
   */
  lemma DeleteTargetsUploadedKeys(bucket: Bucket, category: string, fileName: string)
    requires !Contains(BuildImageKey(category, fileName), BaseUrl(bucket))
    ensures var key := ExtractKeyFromUrl(bucket, BuildImageUrl(bucket, BuildImageKey(category, fileName)));
            key == BuildImageKey(category, fileName) && BuildThumbnailKey(key) == BuildThumbnailKey(BuildImageKey(category, fileName))
  {
    UrlRoundTrip(bucket, BuildImageKey(category, fileName));
  }

  /**
   * `uploadImage`: validate, name the object, store it under `images/<category>/`, and return
   * its URL. Every exception, including a validation failure, is rethrown as a
   * `RuntimeException`. A thumbnail failure is logged and does not fail the upload.
   */
  function UploadImage(bucket: Bucket, file: Option<MultipartFile>, category: string, call: S3Call): (r: Result<string, Rejection>)
    ensures r.Failure? ==> r.error.exception == Runtime
    ensures r.Success? <==> AcceptableByS3(file) && call.putSucceeds
    ensures r.Success? ==> r.value == BuildImageUrl(bucket, BuildImageKey(category,
                             GenerateUniqueFileName(file.value.originalFilename, call.timestamp, call.uuid)))
  {
    match ValidateImageFile(file)
    case Fail(e) => Failure(Rejection(Runtime, e.reason))
    case Pass =>
      var key := BuildImageKey(category, GenerateUniqueFileName(file.value.originalFilename, call.timestamp, call.uuid));
      if call.putSucceeds then Success(BuildImageUrl(bucket, key))
      else Failure(Rejection(Runtime, StorageFailed))
  }
}

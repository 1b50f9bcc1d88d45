/**
 * A supplier's catalog (`Catalog`): its image URLs and normalised tags, its validity window
 * and status, and its view and download counters. The clock is a parameter `now`.
 */
module Catalogs {
  import opened Common
  import opened Time

  /** `CatalogStatus`. */
  datatype CatalogStatus = Active | Inactive | Expired | PendingReview

  /** `CatalogType`. */
  datatype CatalogType = Pdf | ImageCollection | OnlineLink | Mixed

  /**
   * `isValid`: a catalog is valid when `now` is not before its start (if it has one), not
   * after its end (if it has one), and the catalog is ACTIVE. Both ends are inclusive.
   */
  predicate ValidAt(validFrom: Option<DateTime>, validUntil: Option<DateTime>, status: CatalogStatus, now: DateTime)
  {
    if validFrom.Some? && Before(now, validFrom.value) then false
    else if validUntil.Some? && After(now, validUntil.value) then false
    else status == Active
  }

  /** Both ends of a non-empty window are instants at which an ACTIVE catalog is valid, and no other status is. */
  lemma ValidAtEnds(validFrom: DateTime, validUntil: DateTime, status: CatalogStatus)
    requires !Before(validUntil, validFrom)
    ensures ValidAt(Some(validFrom), Some(validUntil), status, validFrom) <==> status == Active
    ensures ValidAt(Some(validFrom), Some(validUntil), status, validUntil) <==> status == Active
  {
    Trichotomy(validFrom, validFrom);
    Trichotomy(validUntil, validUntil);
  }

  /** The instants at which a catalog is valid form an interval: valid at t1 and t2 means valid at every t between them. */
  lemma {:induction false} ValidAtIsConvex(validFrom: Option<DateTime>, validUntil: Option<DateTime>, status: CatalogStatus,
                                           t1: DateTime, t: DateTime, t2: DateTime)
    requires ValidAt(validFrom, validUntil, status, t1) && ValidAt(validFrom, validUntil, status, t2)
    requires !Before(t, t1) && !After(t, t2)
    ensures ValidAt(validFrom, validUntil, status, t)
  {
    if validFrom.Some? && Before(t, validFrom.value) {
      Trichotomy(t, t1);
      if t != t1 {
        BeforeTransitive(t1, t, validFrom.value);
      }
      assert false;
    }
    if validUntil.Some? && After(t, validUntil.value) {
      Trichotomy(t, t2);
      if t != t2 {
        BeforeTransitive(validUntil.value, t, t2);
      }
      assert false;
    }
  }

  /** `hasContent`: a non-blank file URL or at least one image. */
  predicate HasContentOf(fileUrl: Option<string>, imageUrls: seq<string>)
  {
    (fileUrl.Some? && !IsBlank(fileUrl.value)) || imageUrls != []
  }

  /** Adding a non-blank image URL always gives a catalog content, and a blank one never changes whether it has some. */
  lemma ImageGivesContent(fileUrl: Option<string>, imageUrls: seq<string>, imageUrl: Option<string>)
    ensures imageUrl.Some? && !IsBlank(imageUrl.value) ==> HasContentOf(fileUrl, AddTrimmed(imageUrls, imageUrl))
    ensures HasContentOf(fileUrl, imageUrls) ==> HasContentOf(fileUrl, AddTrimmed(imageUrls, imageUrl))
  {
  }

  class Catalog {
    var name: string
    var description: string
    var fileUrl: Option<string>
    var imageUrls: seq<string>
    var catalogType: CatalogType
    var status: CatalogStatus
    var validFrom: Option<DateTime>
    var validUntil: Option<DateTime>
    var season: Option<string>
    var tags: seq<string>
    var viewCount: Option<Int32>
    var downloadCount: Option<Int32>

    /** A new catalog: a PDF, ACTIVE, with no images, no tags and both counters at 0. */
    constructor (name: string, description: string, validFrom: DateTime)
      ensures this.name == name && this.description == description && this.validFrom == Some(validFrom)
      ensures fileUrl == None && imageUrls == [] && catalogType == Pdf && status == Active
      ensures validUntil == None && season == None && tags == []
      ensures viewCount == Some(0) && downloadCount == Some(0)
      ensures NormalizedList(tags, Lower)
    {
      this.name, this.description, this.validFrom := name, description, Some(validFrom);
      fileUrl, imageUrls, catalogType, status := None, [], Pdf, Active;
      validUntil, season, tags := None, None, [];
      viewCount, downloadCount := Some(0), Some(0);
    }

    /** `addImageUrl`: the trimmed URL is appended unless it is missing or blank; duplicates are kept. */
    method AddImageUrl(imageUrl: Option<string>)
      modifies this`imageUrls
      ensures imageUrls == AddTrimmed(old(imageUrls), imageUrl)
      ensures imageUrl.Some? && !IsBlank(imageUrl.value) ==> HasContent()
    {
      if imageUrl.Some? && !IsBlank(imageUrl.value) {
        imageUrls := imageUrls + [Trim(imageUrl.value)];
      }
    }

    /** `removeImageUrl`: the first equal URL goes, without trimming. */
    method RemoveImageUrl(imageUrl: string)
      modifies this`imageUrls
      ensures imageUrls == RemoveFirst(old(imageUrls), imageUrl)
    {
      imageUrls := RemoveFirst(imageUrls, imageUrl);
    }

    /**
     * `addTag`: the trimmed lower-case tag is appended unless the tag is missing or blank or
     * the list already holds it; the list stays duplicate-free, trimmed and lower-case.
     */
    method AddTag(tag: Option<string>)
      modifies this`tags
      ensures tags == AddNormalized(old(tags), tag, Lower)
      ensures tag.Some? && !IsBlank(tag.value) ==> Normalized(tag.value, Lower) in tags
      ensures NormalizedList(old(tags), Lower) ==> NormalizedList(tags, Lower)
    {
      ghost var before := tags;
      if tag.Some? && !IsBlank(tag.value) {
        var normalizedTag := ToLower(Trim(tag.value));
        if normalizedTag !in tags {
          tags := tags + [normalizedTag];
        }
      }
      if NormalizedList(before, Lower) {
        AddNormalizedKeepsInvariant(before, tag, Lower);
      }
    }

    /** `removeTag`: removes the first entry equal to the lower-case tag; it does not trim, and a missing tag is a no-op. */
    method RemoveTag(tag: Option<string>)
      modifies this`tags
      ensures tags == RemoveNormalized(old(tags), tag, Lower)
      ensures NormalizedList(old(tags), Lower) && tag.Some? ==> ToLower(tag.value) !in tags
      ensures NormalizedList(old(tags), Lower) ==> NormalizedList(tags, Lower)
    {
      ghost var before := tags;
      if tag.Some? {
        tags := RemoveFirst(tags, ToLower(tag.value));
      }
      if NormalizedList(before, Lower) {
        RemoveNormalizedKeepsInvariant(before, tag, Lower);
        if tag.Some? {
          RemoveFromDistinct(before, ToLower(tag.value));
        }
      }
    }

    /** `isActive`. */
    predicate IsActive()
      reads this
    {
      status == Active
    }

    /** `isValid` at the instant `now`. */
    predicate IsValid(now: DateTime)
      reads this
    {
      ValidAt(validFrom, validUntil, status, now)
    }

    /** `activate`. */
    method Activate()
      modifies this`status
      ensures status == Active && IsActive()
    {
      status := Active;
    }

    /** `deactivate`: an inactive catalog is valid at no instant. */
    method Deactivate()
      modifies this`status
      ensures status == Inactive && forall now :: !IsValid(now)
    {
      status := Inactive;
    }

    /** `expire`: an expired catalog is valid at no instant. */
    method Expire()
      modifies this`status
      ensures status == Expired && forall now :: !IsValid(now)
    {
      status := Expired;
    }

    /** `incrementViewCount`. */
    method IncrementViewCount()
      modifies this`viewCount
      ensures viewCount == Some(CountAfterIncrement(old(viewCount)))
    {
      viewCount := Some(Increment(if viewCount.None? then 0 else viewCount.value));
    }

    /** `incrementDownloadCount`. */
    method IncrementDownloadCount()
      modifies this`downloadCount
      ensures downloadCount == Some(CountAfterIncrement(old(downloadCount)))
    {
      downloadCount := Some(Increment(if downloadCount.None? then 0 else downloadCount.value));
    }

    /** `hasContent`. */
    predicate HasContent()
      reads this
    {
      HasContentOf(fileUrl, imageUrls)
    }
  }
}

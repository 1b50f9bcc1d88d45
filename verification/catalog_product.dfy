/**
 * A product of a supplier's catalog (`CatalogProduct`): its images, its normalised colour,
 * size and tag lists, its status and counters, its time-boxed promotional price and its
 * short description. Prices are in cents; the clock is a parameter `now`.
 */
module CatalogProducts {
  import opened Common
  import opened Time

  /** `ProductStatus`. */
  datatype ProductStatus = Available | OutOfStock | Discontinued | PendingApproval

  /** `getShortDescription` keeps descriptions up to this length. */
  const SHORT_DESCRIPTION_LENGTH: int := 100

  /** A longer description is cut to this many characters before the ellipsis. */
  const SHORT_DESCRIPTION_CUT: int := 97

  // ---------------------------------------------------------------------------------------------
  // Colours, sizes and tags

  /**
   * On a list kept by AddNormalized, a lookup of the case-mapped string can only succeed for
   * a string with nothing to trim: the lists store trimmed entries and the lookup does not trim.
   */
  lemma OnlyTrimmedFound(xs: seq<string>, s: string, c: Case)
    requires NormalizedList(xs, c) && ToCase(s, c) in xs
    ensures Trim(s) == s
  {
    var e := ToCase(s, c);
    var k :| 0 <= k < |xs| && xs[k] == e;
    assert Normalized(e, c) == e;
    TrimToCase(s, c);
    ToCaseIdempotent(Trim(s), c);
    assert |Trim(s)| == |s|;
    var u := TrimStart(s);
    assert |u| == |s| && u == s[0..] && s[0..] == s;
  }

  /**
   * After `addColor(s)` (or `addSize`, `addTag`) with a non-blank s, the trimmed s is always
   * found, and s itself is found exactly when it has nothing to trim.
   */
  lemma HasAfterAdd(xs: seq<string>, s: string, c: Case)
    requires NormalizedList(xs, c) && !IsBlank(s)
    ensures ToCase(Trim(s), c) in AddNormalized(xs, Some(s), c)
    ensures ToCase(s, c) in AddNormalized(xs, Some(s), c) <==> Trim(s) == s
  {
    AddNormalizedKeepsInvariant(xs, Some(s), c);
    if ToCase(s, c) in AddNormalized(xs, Some(s), c) {
      OnlyTrimmedFound(AddNormalized(xs, Some(s), c), s, c);
    }
  }

  // ---------------------------------------------------------------------------------------------
  // Counters

  /** `Math.max(0, (count == null ? 0 : count) - 1)` on a Java `Integer` counter. */
  function CountAfterDecrement(count: Option<Int32>): (r: Int32)
    ensures r >= 0
    ensures count.None? ==> r == 0
    ensures count.Some? && count.value > 0 ==> r as int == count.value as int - 1
    ensures count.Some? && INT_MIN < count.value as int <= 0 ==> r == 0
    ensures count.Some? && count.value as int == INT_MIN ==> r as int == INT_MAX
  {
    var d := Decrement(if count.None? then 0 else count.value);
    if d < 0 then 0 else d
  }

  /** A favourite added and then withdrawn leaves an ordinary count as it was. */
  lemma FavoriteThenUnfavorite(count: Option<Int32>)
    requires count.None? || 0 <= count.value as int < INT_MAX
    ensures CountAfterDecrement(Some(CountAfterIncrement(count))) == if count.None? then 0 else count.value
  {
  }

  // ---------------------------------------------------------------------------------------------
  // Promotions and prices

  /**
   * `hasActivePromotion`: there is a promotional price and a start date, `now` is not before
   * the start nor after the end (when there is one), and the promotional price is below the
   * selling price.
   */
  predicate PromotionActive(promotionalPrice: Option<int>, start: Option<DateTime>, end: Option<DateTime>,
                            sellingPrice: int, now: DateTime)
  {
    if promotionalPrice.None? || start.None? then false
    else if Before(now, start.value) then false
    else if end.Some? && After(now, end.value) then false
    else promotionalPrice.value < sellingPrice
  }

  /** A promotion whose end comes before its start is never active. */
  lemma {:induction false} InvertedWindowNeverActive(promotionalPrice: Option<int>, start: DateTime, end: DateTime,
                                                     sellingPrice: int, now: DateTime)
    requires Before(end, start)
    ensures !PromotionActive(promotionalPrice, Some(start), Some(end), sellingPrice, now)
  {
    if PromotionActive(promotionalPrice, Some(start), Some(end), sellingPrice, now) {
      Trichotomy(now, start);
      Trichotomy(now, end);
      if now == start {
        BeforeTransitive(end, start, end);
      } else if now == end {
        BeforeTransitive(end, start, end);
      } else {
        BeforeTransitive(end, start, now);
        BeforeTransitive(end, now, end);
      }
      assert false;
    }
  }

  /** A promotion is active at its first instant and, when it has one, at its last. */
  lemma PromotionActiveAtEnds(promotionalPrice: int, start: DateTime, end: Option<DateTime>, sellingPrice: int)
    requires promotionalPrice < sellingPrice
    requires end.Some? ==> !Before(end.value, start)
    ensures PromotionActive(Some(promotionalPrice), Some(start), end, sellingPrice, start)
    ensures end.Some? ==> PromotionActive(Some(promotionalPrice), Some(start), end, sellingPrice, end.value)
  {
    Trichotomy(start, start);
    if end.Some? {
      Trichotomy(end.value, end.value);
    }
  }

  /** `getEffectivePrice`: the promotional price while a promotion is active, otherwise the selling price. */
  function EffectivePrice(promotionalPrice: Option<int>, start: Option<DateTime>, end: Option<DateTime>,
                          sellingPrice: int, now: DateTime): (r: int)
    ensures r <= sellingPrice
    ensures r < sellingPrice <==> PromotionActive(promotionalPrice, start, end, sellingPrice, now)
    ensures r != sellingPrice ==> promotionalPrice == Some(r)
  {
    if PromotionActive(promotionalPrice, start, end, sellingPrice, now) then promotionalPrice.value else sellingPrice
  }

  // ---------------------------------------------------------------------------------------------
  // Descriptions

  /** `getShortDescription`: "" for no description; at most 100 characters, a longer one cut to 97 plus "...". */
  function ShortDescription(description: Option<string>): (r: string)
    ensures |r| <= SHORT_DESCRIPTION_LENGTH
    ensures description.None? ==> r == ""
    ensures description.Some? && |description.value| <= SHORT_DESCRIPTION_LENGTH ==> r == description.value
    ensures description.Some? && |description.value| > SHORT_DESCRIPTION_LENGTH
            ==> |r| == SHORT_DESCRIPTION_LENGTH && EndsWith(r, "...")
                && StartsWith(description.value, r[..SHORT_DESCRIPTION_CUT])
  {
    if description.None? then ""
    else if |description.value| <= SHORT_DESCRIPTION_LENGTH then description.value
    else description.value[..SHORT_DESCRIPTION_CUT] + "..."
  }

  /** Shortening a short description changes nothing. */
  lemma ShortDescriptionIdempotent(description: Option<string>)
    ensures ShortDescription(Some(ShortDescription(description))) == ShortDescription(description)
  {
  }

  class CatalogProduct {
    var title: string
    var description: Option<string>
    var referenceCode: string
    var images: seq<string>
    var availableColors: seq<string>
    var availableSizes: seq<string>
    var tags: seq<string>
    var supplierPrice: int
    var sellingPrice: int
    var promotionalPrice: Option<int>
    var promotionStartDate: Option<DateTime>
    var promotionEndDate: Option<DateTime>
    var status: ProductStatus
    var viewCount: Option<Int32>
    var favoriteCount: Option<Int32>
    var orderCount: Option<Int32>

    /** The colour, size and tag lists are duplicate-free and hold trimmed entries in their case. */
    predicate ListsNormalized()
      reads this
    {
      NormalizedList(availableColors, Lower) && NormalizedList(availableSizes, Upper) && NormalizedList(tags, Lower)
    }

    /** A new product: AVAILABLE, no promotion, empty lists and every counter at 0. */
    constructor (title: string, description: string, referenceCode: string, supplierPrice: int, sellingPrice: int)
      ensures this.title == title && this.description == Some(description) && this.referenceCode == referenceCode
      ensures this.supplierPrice == supplierPrice && this.sellingPrice == sellingPrice
      ensures images == [] && availableColors == [] && availableSizes == [] && tags == []
      ensures promotionalPrice == None && promotionStartDate == None && promotionEndDate == None
      ensures status == Available && viewCount == Some(0) && favoriteCount == Some(0) && orderCount == Some(0)
      ensures ListsNormalized()
    {
      this.title, this.description, this.referenceCode := title, Some(description), referenceCode;
      this.supplierPrice, this.sellingPrice := supplierPrice, sellingPrice;
      images, availableColors, availableSizes, tags := [], [], [], [];
      promotionalPrice, promotionStartDate, promotionEndDate := None, None, None;
      status, viewCount, favoriteCount, orderCount := Available, Some(0), Some(0), Some(0);
    }

    /** `addImage`: the trimmed URL is appended unless it is missing or blank; duplicates are kept. */
    method AddImage(imageUrl: Option<string>)
      modifies this`images
      ensures images == AddTrimmed(old(images), imageUrl)
    {
      if imageUrl.Some? && !IsBlank(imageUrl.value) {
        images := images + [Trim(imageUrl.value)];
      }
    }

    /** `removeImage`: the first equal URL goes, without trimming. */
    method RemoveImage(imageUrl: string)
      modifies this`images
      ensures images == RemoveFirst(old(images), imageUrl)
    {
      images := RemoveFirst(images, imageUrl);
    }

    /** `addColor`: stores the trimmed lower-case colour once; a colour with nothing to trim is found by `hasColor` afterwards. */
    method AddColor(color: Option<string>)
      modifies this`availableColors
      ensures availableColors == AddNormalized(old(availableColors), color, Lower)
      ensures NormalizedList(old(availableColors), Lower) ==> NormalizedList(availableColors, Lower)
      ensures NormalizedList(old(availableColors), Lower) && color.Some? && !IsBlank(color.value)
              ==> HasColor(Some(Trim(color.value))) && (HasColor(color) <==> Trim(color.value) == color.value)
    {
      ghost var before := availableColors;
      if color.Some? && !IsBlank(color.value) {
        var normalizedColor := ToLower(Trim(color.value));
        if normalizedColor !in availableColors {
          availableColors := availableColors + [normalizedColor];
        }
      }
      if NormalizedList(before, Lower) {
        AddNormalizedKeepsInvariant(before, color, Lower);
        if color.Some? && !IsBlank(color.value) {
          HasAfterAdd(before, color.value, Lower);
          TrimIdempotent(color.value);
        }
      }
    }

    /** `removeColor`: removes the lower-case colour, without trimming; a missing colour is a no-op. */
    method RemoveColor(color: Option<string>)
      modifies this`availableColors
      ensures availableColors == RemoveNormalized(old(availableColors), color, Lower)
      ensures NormalizedList(old(availableColors), Lower) ==> NormalizedList(availableColors, Lower)
      ensures NormalizedList(old(availableColors), Lower) ==> !HasColor(color)
    {
      ghost var before := availableColors;
      if color.Some? {
        availableColors := RemoveFirst(availableColors, ToLower(color.value));
      }
      if NormalizedList(before, Lower) {
        RemoveNormalizedKeepsInvariant(before, color, Lower);
        if color.Some? {
          RemoveFromDistinct(before, ToLower(color.value));
        }
      }
    }

    /** `addSize`: stores the trimmed upper-case size once; a size with nothing to trim is found by `hasSize` afterwards. */
    method AddSize(size: Option<string>)
      modifies this`availableSizes
      ensures availableSizes == AddNormalized(old(availableSizes), size, Upper)
      ensures NormalizedList(old(availableSizes), Upper) ==> NormalizedList(availableSizes, Upper)
      ensures NormalizedList(old(availableSizes), Upper) && size.Some? && !IsBlank(size.value)
              ==> HasSize(Some(Trim(size.value))) && (HasSize(size) <==> Trim(size.value) == size.value)
    {
      ghost var before := availableSizes;
      if size.Some? && !IsBlank(size.value) {
        var normalizedSize := ToUpper(Trim(size.value));
        if normalizedSize !in availableSizes {
          availableSizes := availableSizes + [normalizedSize];
        }
      }
      if NormalizedList(before, Upper) {
        AddNormalizedKeepsInvariant(before, size, Upper);
        if size.Some? && !IsBlank(size.value) {
          HasAfterAdd(before, size.value, Upper);
          TrimIdempotent(size.value);
        }
      }
    }

    /** `removeSize`: removes the upper-case size, without trimming; a missing size is a no-op. */
    method RemoveSize(size: Option<string>)
      modifies this`availableSizes
      ensures availableSizes == RemoveNormalized(old(availableSizes), size, Upper)
      ensures NormalizedList(old(availableSizes), Upper) ==> NormalizedList(availableSizes, Upper)
      ensures NormalizedList(old(availableSizes), Upper) ==> !HasSize(size)
    {
      ghost var before := availableSizes;
      if size.Some? {
        availableSizes := RemoveFirst(availableSizes, ToUpper(size.value));
      }
      if NormalizedList(before, Upper) {
        RemoveNormalizedKeepsInvariant(before, size, Upper);
        if size.Some? {
          RemoveFromDistinct(before, ToUpper(size.value));
        }
      }
    }

    /** `addTag`: stores the trimmed lower-case tag once. */
    method AddTag(tag: Option<string>)
      modifies this`tags
      ensures tags == AddNormalized(old(tags), tag, Lower)
      ensures NormalizedList(old(tags), Lower) ==> NormalizedList(tags, Lower)
    {
      ghost var before := tags;
      if tag.Some? && !IsBlank(tag.value) {
        var normalizedTag := ToLower(Trim(tag.value));
        if normalizedTag !in tags {
          tags := tags + [normalizedTag];
        }
      }
      if NormalizedList(before, Lower) {
        AddNormalizedKeepsInvariant(before, tag, Lower);
      }
    }

    /** `removeTag`: removes the lower-case tag, without trimming; a missing tag is a no-op. */
    method RemoveTag(tag: Option<string>)
      modifies this`tags
      ensures tags == RemoveNormalized(old(tags), tag, Lower)
      ensures NormalizedList(old(tags), Lower) ==> NormalizedList(tags, Lower)
    {
      ghost var before := tags;
      if tag.Some? {
        tags := RemoveFirst(tags, ToLower(tag.value));
      }
      if NormalizedList(before, Lower) {
        RemoveNormalizedKeepsInvariant(before, tag, Lower);
      }
    }

    /** `isAvailable`. */
    predicate IsAvailable()
      reads this
    {
      status == Available
    }

    /** `isDiscontinued`. */
    predicate IsDiscontinued()
      reads this
    {
      status == Discontinued
    }

    /** `isOutOfStock`. */
    predicate IsOutOfStock()
      reads this
    {
      status == OutOfStock
    }

    /** `markAsAvailable`. */
    method MarkAsAvailable()
      modifies this`status
      ensures status == Available && IsAvailable()
    {
      status := Available;
    }

    /** `markAsOutOfStock`. */
    method MarkAsOutOfStock()
      modifies this`status
      ensures status == OutOfStock && IsOutOfStock() && !IsAvailable()
    {
      status := OutOfStock;
    }

    /** `discontinue`. */
    method Discontinue()
      modifies this`status
      ensures status == Discontinued && IsDiscontinued() && !IsAvailable()
    {
      status := Discontinued;
    }

    /** `incrementViewCount`. */
    method IncrementViewCount()
      modifies this`viewCount
      ensures viewCount == Some(CountAfterIncrement(old(viewCount)))
    {
      viewCount := Some(Increment(if viewCount.None? then 0 else viewCount.value));
    }

    /** `incrementFavoriteCount`. */
    method IncrementFavoriteCount()
      modifies this`favoriteCount
      ensures favoriteCount == Some(CountAfterIncrement(old(favoriteCount)))
    {
      favoriteCount := Some(Increment(if favoriteCount.None? then 0 else favoriteCount.value));
    }

    /** `decrementFavoriteCount`: never below zero. */
    method DecrementFavoriteCount()
      modifies this`favoriteCount
      ensures favoriteCount == Some(CountAfterDecrement(old(favoriteCount)))
      ensures favoriteCount.value >= 0
    {
      var decremented := Decrement(if favoriteCount.None? then 0 else favoriteCount.value);
      favoriteCount := Some(Max(0, decremented as int) as Int32);
    }

    /** `incrementOrderCount`. */
    method IncrementOrderCount()
      modifies this`orderCount
      ensures orderCount == Some(CountAfterIncrement(old(orderCount)))
    {
      orderCount := Some(Increment(if orderCount.None? then 0 else orderCount.value));
    }

    /** `hasActivePromotion` at the instant `now`. */
    predicate HasActivePromotion(now: DateTime)
      reads this
    {
      PromotionActive(promotionalPrice, promotionStartDate, promotionEndDate, sellingPrice, now)
    }

    /** `getEffectivePrice` at the instant `now`. */
    function GetEffectivePrice(now: DateTime): int
      reads this
    {
      EffectivePrice(promotionalPrice, promotionStartDate, promotionEndDate, sellingPrice, now)
    }

    /** `hasImages`. */
    predicate HasImages()
      reads this
    {
      images != []
    }

    /** `getPrimaryImage`: the first image, or none when there are no images. */
    function GetPrimaryImage(): (r: Option<string>)
      reads this
      ensures r.None? <==> !HasImages()
      ensures r.Some? ==> r.value in images && r.value == images[0]
    {
      if HasImages() then Some(images[0]) else None
    }

    /** `hasColor`: looks up the lower-case colour, without trimming; a missing colour is never found. */
    predicate HasColor(color: Option<string>)
      reads this
    {
      color.Some? && ToLower(color.value) in availableColors
    }

    /** `hasSize`: looks up the upper-case size, without trimming; a missing size is never found. */
    predicate HasSize(size: Option<string>)
      reads this
    {
      size.Some? && ToUpper(size.value) in availableSizes
    }

    /** `getShortDescription`. */
    function GetShortDescription(): string
      reads this
    {
      ShortDescription(description)
    }
  }
}
